/** When the outcome of an interrogation depends on the order its reports arrive in. */
module ReportOrder {
  import opened CTypes
  import opened Endpoints
  import opened Topology
  import opened Interrogation

  /** qs are the same reports in another order an interrogation can meet. */
  ghost predicate Reordered(rs: seq<Report>, qs: seq<Report>) {
    TypesFirst(qs) && multiset(qs) == multiset(rs)
  }

  // ---- Tables with the same graph --------------------------------------------------------------------

  ghost predicate SameGraph(a: seq<Endpoint>, b: seq<Endpoint>) {
    && UniqueIds(a) && UniqueIds(b)
    && (forall x: U16 :: HasEndpoint(a, x) <==> HasEndpoint(b, x))
    && forall x: U16, c: U16 :: c in PartsOf(a, x) <==> c in PartsOf(b, x)
  }

  lemma ReorderedGraph(rs: seq<Report>, qs: seq<Report>)
    requires TypesFirst(rs) && Reordered(rs, qs)
    ensures SameGraph(AfterAll([], rs), AfterAll([], qs))
  {
    hide HasEndpoint, PartsOf, TypesFirst;
    var a, b := AfterAll([], rs), AfterAll([], qs);
    TableIsFaithful(rs);
    TableIsFaithful(qs);
    forall x: U16 ensures HasEndpoint(a, x) <==> HasEndpoint(b, x) { OrderDoesNotMatter(rs, qs, x); }
    forall x: U16, c: U16 ensures c in PartsOf(a, x) <==> c in PartsOf(b, x) {
      OrderDoesNotMatter(rs, qs, x);
      assert c in PartsOf(a, x) <==> c in multiset(PartsOf(a, x));
      assert c in PartsOf(b, x) <==> c in multiset(PartsOf(b, x));
    }
  }

  lemma SameDepth(a: seq<Endpoint>, b: seq<Endpoint>, e: U16)
    requires SameGraph(a, b)
    ensures Depth(a, e) == Depth(b, e)
  {
    hide UniqueIds;
    forall p ensures PathTo(a, p, e) <==> PathTo(b, p, e) {
      assert forall i :: 0 <= i < |p| - 1 ==> (Edge(a, p, i) <==> Edge(b, p, i));
    }
    if Reachable(a, e) {
      assert IsShortest(b, e, Depth(a, e));
      DepthIsShortest(b, e, Depth(a, e));
    } else {
      assert !Reachable(b, e);
    }
  }

  // ---- Claimants that tie ------------------------------------------------------------------------------

  /** c claims e, and no claimant of e is deeper. */
  ghost predicate Deepest(eps: seq<Endpoint>, e: U16, c: U16) {
    c in Claimants(eps, e) && forall d :: d in Claimants(eps, e) ==> Depth(eps, d) <= Depth(eps, c)
  }

  /** No two claimants of e tie for the greatest depth. */
  ghost predicate NoTie(eps: seq<Endpoint>, e: U16) {
    forall c: U16, d: U16 :: Deepest(eps, e, c) && Deepest(eps, e, d) ==> c == d
  }

  lemma SameDeepest(a: seq<Endpoint>, b: seq<Endpoint>, e: U16, c: U16)
    requires SameGraph(a, b)
    ensures Deepest(a, e, c) <==> Deepest(b, e, c)
  {
    hide PartsOf, Claimants, Depth;
    forall d: U16 ensures (d in Claimants(a, e) <==> d in Claimants(b, e)) && Depth(a, d) == Depth(b, d) {
      ClaimantsList(a, e, d);
      ClaimantsList(b, e, d);
      SameDepth(a, b, d);
    }
  }

  lemma ParentIsDeepest(eps: seq<Endpoint>, e: U16, p: U16)
    requires IsResolvedParent(eps, e, p)
    ensures if Claimants(eps, e) == [] then p == NO_PARENT else Deepest(eps, e, p)
  {
    var cs := Claimants(eps, e);
    if cs != [] {
      var i :| DeepestFirst(eps, cs, i) && cs[i] == p;
      assert forall d :: d in cs ==> exists j :: 0 <= j < |cs| && cs[j] == d;
    }
  }

  lemma {:induction false} SomeDeepest(eps: seq<Endpoint>, cs: seq<U16>) returns (i: nat)
    requires cs != []
    ensures DeepestFirst(eps, cs, i)
  {
    hide Depth;
    var n := |cs| - 1;
    if n == 0 {
      i := 0;
    } else {
      var k := SomeDeepest(eps, cs[..n]);
      i := if Depth(eps, cs[n]) > Depth(eps, cs[k]) then n else k;
      assert forall j :: 0 <= j < n ==> cs[..n][j] == cs[j] && Depth(eps, cs[j]) <= Depth(eps, cs[k]);
    }
  }

  lemma ParentExists(eps: seq<Endpoint>, e: U16) returns (p: U16)
    ensures IsResolvedParent(eps, e, p)
  {
    var cs := Claimants(eps, e);
    p := NO_PARENT;
    if cs != [] {
      var i := SomeDeepest(eps, cs);
      p := cs[i];
    }
  }

  /** The endpoint at the head of the table wins every tie it is part of. */
  lemma HeadWins(eps: seq<Endpoint>, e: U16, c: U16, p: U16)
    requires UniqueIds(eps) && eps != [] && eps[0].id == c
    requires Deepest(eps, e, c) && IsResolvedParent(eps, e, p)
    ensures p == c
  {
    ClaimantsList(eps, e, c);
    UniqueFind(eps, 0);
    EarliestDeepest(eps, e, p, 0);
  }

  // ---- Bringing a report forward -------------------------------------------------------------------------

  function ToFront(rs: seq<Report>, j: nat): seq<Report>
    requires j < |rs|
  {
    [rs[j]] + (rs[..j] + rs[j + 1..])
  }

  lemma FrontAt(rs: seq<Report>, j: nat, i: nat)
    requires j < |rs| && i < |rs|
    ensures |ToFront(rs, j)| == |rs|
    ensures ToFront(rs, j)[if i < j then i + 1 else if i == j then 0 else i] == rs[i]
  {
  }

  lemma SameMultiset(rs: seq<Report>, j: nat)
    requires j < |rs|
    ensures multiset(ToFront(rs, j)) == multiset(rs)
  {
    assert rs == rs[..j] + [rs[j]] + rs[j + 1..];
  }

  lemma FrontIsReordered(rs: seq<Report>, j: nat)
    requires j < |rs| && TypesFirst(rs) && rs[j].DeviceTypeList?
    ensures Reordered(rs, ToFront(rs, j))
  {
    var qs := ToFront(rs, j);
    SameMultiset(rs, j);
    hide ToFront;
    FrontAt(rs, j, j);
    forall i | 0 <= i < |qs| && qs[i].PartsList?
      ensures exists k :: 0 <= k < i && qs[k].DeviceTypeList? && qs[k].ep == qs[i].ep
    {
      var was := if i <= j then i - 1 else i;
      FrontAt(rs, j, was);
      var k :| 0 <= k < was && rs[k].DeviceTypeList? && rs[k].ep == rs[was].ep;
      FrontAt(rs, j, k);
    }
  }

  ghost predicate Heads(eps: seq<Endpoint>, id: U16) {
    eps != [] && eps[0].id == id
  }

  lemma {:induction false} TypesKeepHead(eps: seq<Endpoint>, ep: U16, types: seq<U32>, id: U16)
    requires Heads(eps, id)
    ensures Heads(AfterTypes(eps, ep, types), id)
  {
    if types != [] { TypesKeepHead(eps, ep, types[..|types| - 1], id); }
  }

  lemma {:induction false} PartsKeepHead(eps: seq<Endpoint>, ep: U16, ids: seq<U16>, id: U16)
    requires Heads(eps, id)
    ensures Heads(AfterParts(eps, ep, ids), id)
  {
    if ids != [] { PartsKeepHead(eps, ep, ids[..|ids| - 1], id); }
  }

  lemma ReportKeepsHead(eps: seq<Endpoint>, r: Report, id: U16)
    requires Heads(eps, id)
    ensures Heads(After(eps, r), id)
  {
    hide AfterTypes, AfterParts;
    match r
    case DeviceTypeList(ep, types) => TypesKeepHead(WithEndpoint(eps, ep), ep, types, id);
    case PartsList(ep, ids) => PartsKeepHead(eps, ep, ids, id);
    case NodeLabel(ep, text) =>
  }

  lemma FirstAlone(r: Report)
    requires r.DeviceTypeList?
    ensures Heads(AfterAll([], [r]), r.ep)
  {
    hide AfterTypes, AfterParts, WithLabel;
    assert [r][..0] == [];
    assert AfterAll([], [r]) == AfterTypes(WithEndpoint([], r.ep), r.ep, r.types);
    assert Heads(WithEndpoint([], r.ep), r.ep);
    TypesKeepHead(WithEndpoint([], r.ep), r.ep, r.types, r.ep);
  }

  lemma {:induction false} FirstReportHeads(r: Report, rest: seq<Report>)
    requires r.DeviceTypeList?
    ensures Heads(AfterAll([], [r] + rest), r.ep)
  {
    hide AfterTypes, AfterParts;
    if rest == [] {
      assert [r] + rest == [r];
      FirstAlone(r);
    } else {
      hide After, Heads;
      var n := |rest| - 1;
      assert ([r] + rest)[..n + 1] == [r] + rest[..n];
      FirstReportHeads(r, rest[..n]);
      ReportKeepsHead(AfterAll([], [r] + rest[..n]), rest[n], r.ep);
    }
  }

  /** For any claimant among the deepest there is an order of the reports that makes it the parent. */
  lemma AnyDeepestCanWin(rs: seq<Report>, e: U16, c: U16) returns (qs: seq<Report>)
    requires TypesFirst(rs) && Deepest(AfterAll([], rs), e, c)
    ensures Reordered(rs, qs) && forall q :: IsResolvedParent(AfterAll([], qs), e, q) ==> q == c
  {
    hide Depth, IsResolvedParent;
    var eps := AfterAll([], rs);
    TableIsFaithful(rs);
    ClaimantsList(eps, e, c);
    assert Faithful(eps, rs, c);
    TypesFirstRecordsAll(rs, c, e);
    var r :| r in rs && r.PartsList? && r.ep == c && e in r.ids;
    var i :| 0 <= i < |rs| && rs[i] == r;
    var j :| 0 <= j < i && rs[j].DeviceTypeList? && rs[j].ep == c;
    qs := ToFront(rs, j);
    FrontIsReordered(rs, j);
    ReorderedGraph(rs, qs);
    FirstReportHeads(rs[j], rs[..j] + rs[j + 1..]);
    SameDeepest(eps, AfterAll([], qs), e, c);
    forall q | IsResolvedParent(AfterAll([], qs), e, q) ensures q == c { HeadWins(AfterAll([], qs), e, c, q); }
  }

  // ---- Parents -----------------------------------------------------------------------------------------

  /** Every order of the reports gives e the same parent. */
  ghost predicate ParentIsSettled(rs: seq<Report>, e: U16) {
    forall qs: seq<Report>, p: U16, q: U16 ::
      Reordered(rs, qs) && IsResolvedParent(AfterAll([], rs), e, p) && IsResolvedParent(AfterAll([], qs), e, q)
      ==> p == q
  }

  /** The order decides a parent exactly where claimants tie for the greatest depth. */
  lemma ParentIsSettledIff(rs: seq<Report>, e: U16)
    requires TypesFirst(rs)
    ensures ParentIsSettled(rs, e) <==> NoTie(AfterAll([], rs), e)
  {
    hide TypesFirst, IsResolvedParent, Deepest, AfterAll;
    var a := AfterAll([], rs);
    if NoTie(a, e) {
      forall qs: seq<Report>, p: U16, q: U16
        | Reordered(rs, qs) && IsResolvedParent(a, e, p) && IsResolvedParent(AfterAll([], qs), e, q)
        ensures p == q
      {
        SettledWithoutTie(rs, qs, e, p, q);
      }
    } else {
      var c: U16, d: U16 :| Deepest(a, e, c) && Deepest(a, e, d) && c != d;
      var p := ParentExists(a, e);
      var qs := AnyDeepestCanWin(rs, e, if p == c then d else c);
      var q := ParentExists(AfterAll([], qs), e);
    }
  }

  lemma SettledWithoutTie(rs: seq<Report>, qs: seq<Report>, e: U16, p: U16, q: U16)
    requires TypesFirst(rs) && Reordered(rs, qs) && NoTie(AfterAll([], rs), e)
    requires IsResolvedParent(AfterAll([], rs), e, p) && IsResolvedParent(AfterAll([], qs), e, q)
    ensures p == q
  {
    hide IsResolvedParent, TypesFirst, Depth, PartsOf;
    var a, b := AfterAll([], rs), AfterAll([], qs);
    ReorderedGraph(rs, qs);
    ParentIsDeepest(a, e, p);
    ParentIsDeepest(b, e, q);
    SameDeepest(a, b, e, p);
    SameDeepest(a, b, e, q);
    forall c: U16 ensures c in Claimants(a, e) <==> c in Claimants(b, e) {
      ClaimantsList(a, e, c);
      ClaimantsList(b, e, c);
    }
    assert Claimants(a, e) != [] ==> Claimants(a, e)[0] in Claimants(b, e);
    assert Claimants(b, e) != [] ==> Claimants(b, e)[0] in Claimants(a, e);
  }

  /** In a tree nothing ties: every order of the reports recovers it. */
  lemma TreesAreSettled(rs: seq<Report>, par: map<U16, U16>, rank: map<U16, nat>, e: U16)
    requires TypesFirst(rs) && IsTree(AfterAll([], rs), par, rank) && TreeLists(AfterAll([], rs), par)
    ensures ParentIsSettled(rs, e)
  {
    hide TypesFirst, ParentIsSettled, AfterAll;
    var eps := AfterAll([], rs);
    forall c: U16, d: U16 | Deepest(eps, e, c) && Deepest(eps, e, d) ensures c == d {
      TreeHasNoTie(eps, par, rank, e, c, d);
    }
    ParentIsSettledIff(rs, e);
  }

  lemma TreeHasNoTie(eps: seq<Endpoint>, par: map<U16, U16>, rank: map<U16, nat>, e: U16, c: U16, d: U16)
    requires IsTree(eps, par, rank) && TreeLists(eps, par) && Deepest(eps, e, c) && Deepest(eps, e, d)
    ensures c == d
  {
    hide Depth, TreeLists;
    TreeClaimant(eps, par, rank, e, c);
    TreeClaimant(eps, par, rank, e, d);
    if c != d {
      ListedByParent(eps, par, rank);
      TreeReaches(eps, par, rank, par[e]);
      NonRootDepth(eps, par[e]);
      RootDepth(eps);
    }
  }

  // ---- The primary type ----------------------------------------------------------------------------------

  /** Some DeviceTypeList of the endpoint has t as its first type of its own. */
  ghost predicate Offers(rs: seq<Report>, ep: U16, t: U32) {
    exists r :: r in rs && r.DeviceTypeList? && r.ep == ep && MainType(NonZero(r.types)) == Some(t)
  }

  ghost predicate OffersNone(rs: seq<Report>, ep: U16) {
    forall t: U32 :: !Offers(rs, ep, t)
  }

  /** The endpoint that the primary type comes from: the lowest that offers one, the root if none does. */
  ghost predicate Chosen(rs: seq<Report>, ep: U16) {
    if ep == 0 then forall e: U16 :: e != 0 ==> OffersNone(rs, e)
    else !OffersNone(rs, ep) && forall e: U16 :: 0 < e < ep ==> OffersNone(rs, e)
  }

  ghost predicate OneOffer(rs: seq<Report>, ep: U16) {
    forall t: U32, u: U32 :: Offers(rs, ep, t) && Offers(rs, ep, u) ==> t == u
  }

  lemma {:induction false} MainTypeJoined(a: seq<U32>, b: seq<U32>)
    ensures MainType(a + b) == if MainType(a).Some? then MainType(a) else MainType(b)
  {
    if a == [] {
      assert a + b == b;
    } else {
      assert (a + b)[1..] == a[1..] + b;
      MainTypeJoined(a[1..], b);
    }
  }

  /** What one more report does to an endpoint's first type: nothing once it has one. */
  lemma MainAfter(m: PendingMap, r: Report, ep: U16)
    ensures MainOf(PendingAfter(m, r), ep) ==
      if MainOf(m, ep).Some? || !r.DeviceTypeList? || r.ep != ep then MainOf(m, ep) else MainType(NonZero(r.types))
  {
    if r.DeviceTypeList? && r.ep == ep {
      MainTypeJoined(TypesIn(m, ep), NonZero(r.types));
    }
  }

  lemma OffersSnoc(rs: seq<Report>, r: Report, ep: U16, t: U32)
    ensures Offers(rs + [r], ep, t) <==>
      Offers(rs, ep, t) || (r.DeviceTypeList? && r.ep == ep && MainType(NonZero(r.types)) == Some(t))
  {
    assert forall q :: q in rs + [r] <==> q in rs || q == r;
  }

  lemma {:induction false} MainIsOffered(rs: seq<Report>, ep: U16)
    ensures var main := MainOf(PendingAll(map[], rs), ep);
      (main.Some? ==> Offers(rs, ep, main.value)) && (main.None? ==> OffersNone(rs, ep))
  {
    if rs != [] {
      hide MainOf, PendingAfter, NonZero, MainType, Offers;
      var n := |rs| - 1;
      MainIsOffered(rs[..n], ep);
      MainAfter(PendingAll(map[], rs[..n]), rs[n], ep);
      assert rs == rs[..n] + [rs[n]];
      forall t: U32
        ensures Offers(rs, ep, t) <==>
          Offers(rs[..n], ep, t)
          || (rs[n].DeviceTypeList? && rs[n].ep == ep && MainType(NonZero(rs[n].types)) == Some(t))
      {
        OffersSnoc(rs[..n], rs[n], ep, t);
      }
    } else {
      NothingPending(ep);
    }
  }

  lemma {:induction false} FirstReportDecides(r: Report, rest: seq<Report>, t: U32)
    requires r.DeviceTypeList? && MainType(NonZero(r.types)) == Some(t)
    ensures MainOf(PendingAll(map[], [r] + rest), r.ep) == Some(t)
  {
    hide MainOf, PendingAfter, NonZero, MainType;
    if rest == [] {
      assert [r] + rest == [r] && [r][..0] == [];
      assert MainOf(map[], r.ep) == None by { NothingPending(r.ep); }
      MainAfter(map[], r, r.ep);
    } else {
      var n := |rest| - 1;
      assert ([r] + rest)[..n + 1] == [r] + rest[..n];
      FirstReportDecides(r, rest[..n], t);
      MainAfter(PendingAll(map[], [r] + rest[..n]), rest[n], r.ep);
    }
  }

  lemma NothingPending(ep: U16)
    ensures MainOf(map[], ep) == None
  {
  }

  lemma SameOffers(rs: seq<Report>, qs: seq<Report>)
    requires multiset(rs) == multiset(qs)
    ensures forall ep: U16, t: U32 :: Offers(rs, ep, t) <==> Offers(qs, ep, t)
  {
    forall r ensures r in rs <==> r in qs {
      assert r in rs <==> r in multiset(rs);
      assert r in qs <==> r in multiset(qs);
    }
  }

  lemma SameChosen(rs: seq<Report>, qs: seq<Report>)
    requires multiset(rs) == multiset(qs)
    ensures forall ep: U16 :: OffersNone(rs, ep) <==> OffersNone(qs, ep)
    ensures forall ep: U16 :: Chosen(rs, ep) <==> Chosen(qs, ep)
  {
    SameOffers(rs, qs);
    hide Offers;
    assert forall ep: U16 :: OffersNone(rs, ep) <==> OffersNone(qs, ep);
    hide OffersNone;
  }

  lemma ChosenIsUnique(rs: seq<Report>, ep: U16, e: U16)
    requires Chosen(rs, ep) && Chosen(rs, e)
    ensures ep == e
  {
    hide OffersNone;
  }

  /** The primary type is the first offer of the chosen endpoint, or 0 if it makes none. */
  lemma PrimaryIsChosen(rs: seq<Report>, r: U32)
    requires IsPrimary(PendingAll(map[], rs), r)
    ensures exists ep: U16 :: Chosen(rs, ep) && if OffersNone(rs, ep) then r == 0 else Offers(rs, ep, r)
  {
    hide MainOf, PendingAll, Offers;
    var m := PendingAll(map[], rs);
    forall ep: U16
      ensures MainOf(m, ep).Some? ==> Offers(rs, ep, MainOf(m, ep).value)
      ensures MainOf(m, ep).None? <==> OffersNone(rs, ep)
    {
      MainIsOffered(rs, ep);
    }
    if exists e: U16 :: e != 0 && MainOf(m, e).Some? {
      var e: U16 :| LowestMain(m, e) && MainOf(m, e) == Some(r);
      assert Chosen(rs, e);
    } else {
      assert Chosen(rs, 0);
    }
  }

  lemma ChosenIsPrimary(rs: seq<Report>, ep: U16, t: U32)
    requires Chosen(rs, ep) && MainOf(PendingAll(map[], rs), ep) == Some(t)
    ensures IsPrimary(PendingAll(map[], rs), t)
  {
    hide MainOf, PendingAll, Offers;
    var m := PendingAll(map[], rs);
    forall e: U16 ensures MainOf(m, e).None? <==> OffersNone(rs, e) { MainIsOffered(rs, e); }
    if ep != 0 { assert LowestMain(m, ep); }
  }

  /** Any offer of the chosen endpoint is the primary type in some order of the reports. */
  lemma AnyOfferCanWin(rs: seq<Report>, ep: U16, t: U32) returns (qs: seq<Report>)
    requires TypesFirst(rs) && Chosen(rs, ep) && Offers(rs, ep, t)
    ensures Reordered(rs, qs) && IsPrimary(PendingAll(map[], qs), t)
  {
    hide TypesFirst, IsPrimary, MainOf, PendingAll, Chosen, NonZero, MainType;
    var r :| r in rs && r.DeviceTypeList? && r.ep == ep && MainType(NonZero(r.types)) == Some(t);
    var j :| 0 <= j < |rs| && rs[j] == r;
    qs := ToFront(rs, j);
    FrontIsReordered(rs, j);
    SameChosen(rs, qs);
    FirstReportDecides(r, rs[..j] + rs[j + 1..], t);
    ChosenIsPrimary(qs, ep, t);
  }

  /** Every order of the reports ends in the same primary type. */
  ghost predicate PrimaryIsSettled(rs: seq<Report>) {
    forall qs: seq<Report>, r: U32, q: U32 ::
      Reordered(rs, qs) && IsPrimary(TypeMap(AfterAll([], rs)), r) && IsPrimary(TypeMap(AfterAll([], qs)), q) ==> r == q
  }

  /** The order decides the primary type exactly when the endpoint it comes from was described more than
      once, with different first types. */
  lemma PrimaryIsSettledIff(rs: seq<Report>)
    requires TypesFirst(rs)
    ensures PrimaryIsSettled(rs) <==> forall ep: U16 :: Chosen(rs, ep) ==> OneOffer(rs, ep)
  {
    hide TypesFirst, IsPrimary, AfterAll, PendingAll, Offers, Chosen, TypeMap;
    if forall ep: U16 :: Chosen(rs, ep) ==> OneOffer(rs, ep) {
      forall qs: seq<Report>, r: U32, q: U32
        | Reordered(rs, qs) && IsPrimary(TypeMap(AfterAll([], rs)), r) && IsPrimary(TypeMap(AfterAll([], qs)), q)
        ensures r == q
      {
        PrimaryFromEitherIndex(rs, r);
        PrimaryFromEitherIndex(qs, q);
        SamePrimary(rs, qs, r, q);
      }
    } else {
      var ep: U16 :| Chosen(rs, ep) && !OneOffer(rs, ep);
      var t: U32, u: U32 :| Offers(rs, ep, t) && Offers(rs, ep, u) && t != u;
      MainIsOffered(rs, ep);
      var r := MainOf(PendingAll(map[], rs), ep).value;
      ChosenIsPrimary(rs, ep, r);
      var other := if r == t then u else t;
      var qs := AnyOfferCanWin(rs, ep, other);
      PrimaryFromEitherIndex(rs, r);
      PrimaryFromEitherIndex(qs, other);
    }
  }

  lemma SamePrimary(rs: seq<Report>, qs: seq<Report>, r: U32, q: U32)
    requires Reordered(rs, qs) && forall ep: U16 :: Chosen(rs, ep) ==> OneOffer(rs, ep)
    requires IsPrimary(PendingAll(map[], rs), r) && IsPrimary(PendingAll(map[], qs), q)
    ensures r == q
  {
    hide TypesFirst, IsPrimary, PendingAll, Offers, Chosen, OffersNone;
    PrimaryIsChosen(rs, r);
    PrimaryIsChosen(qs, q);
    var ep: U16 :| Chosen(rs, ep) && if OffersNone(rs, ep) then r == 0 else Offers(rs, ep, r);
    var e: U16 :| Chosen(qs, e) && if OffersNone(qs, e) then q == 0 else Offers(qs, e, q);
    SameOffers(rs, qs);
    SameChosen(rs, qs);
    ChosenIsUnique(rs, ep, e);
  }
}

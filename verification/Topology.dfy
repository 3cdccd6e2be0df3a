/** What device_manager_resolve_parents computes, stated on the graph of "parts" lists. */
module Topology {
  import opened CTypes
  import opened Endpoints

  ghost predicate Edge(eps: seq<Endpoint>, p: seq<U16>, i: nat)
    requires i + 1 < |p|
  {
    p[i + 1] in PartsOf(eps, p[i])
  }

  ghost predicate IsPath(eps: seq<Endpoint>, p: seq<U16>) {
    |p| > 0 && forall i :: 0 <= i < |p| - 1 ==> Edge(eps, p, i)
  }

  /** p leads from endpoint 0, which must be in the table, to e. */
  ghost predicate PathTo(eps: seq<Endpoint>, p: seq<U16>, e: U16) {
    HasEndpoint(eps, 0) && IsPath(eps, p) && p[0] == 0 && p[|p| - 1] == e
  }

  ghost predicate Reachable(eps: seq<Endpoint>, e: U16) {
    exists p :: PathTo(eps, p, e)
  }

  /** d is the number of edges of a shortest path from endpoint 0 to e. */
  ghost predicate IsShortest(eps: seq<Endpoint>, e: U16, d: nat) {
    (exists p :: PathTo(eps, p, e) && |p| == d + 1) && forall p :: PathTo(eps, p, e) ==> d + 1 <= |p|
  }

  lemma {:induction false} ShortestExists(eps: seq<Endpoint>, e: U16, p: seq<U16>)
    requires PathTo(eps, p, e)
    ensures exists d: nat :: IsShortest(eps, e, d)
    decreases |p|
  {
    if q :| PathTo(eps, q, e) && |q| < |p| {
      ShortestExists(eps, e, q);
    } else {
      assert IsShortest(eps, e, |p| - 1);
    }
  }

  /** Distance from endpoint 0; an endpoint that cannot be reached counts as depth 0. */
  ghost function Depth(eps: seq<Endpoint>, e: U16): (d: nat)
    ensures Reachable(eps, e) ==> IsShortest(eps, e, d)
    ensures !Reachable(eps, e) ==> d == 0
  {
    if Reachable(eps, e) then
      var p :| PathTo(eps, p, e);
      ShortestExists(eps, e, p);
      var d: nat :| IsShortest(eps, e, d);
      d
    else 0
  }

  /** The ids endpoint `owner` contributes to the claimants of e while its parts are scanned. */
  function ClaimsOf(owner: U16, parts: seq<U16>, e: U16): (cs: seq<U16>)
    ensures forall c :: c in cs <==> c == owner && e in parts
  {
    if parts == [] then [] else
    var n := |parts| - 1;
    ClaimsOf(owner, parts[..n], e) + if parts[n] == e then [owner] else []
  }

  /** Everyone that lists e as a part, in table order. */
  function Claimants(eps: seq<Endpoint>, e: U16): (cs: seq<U16>)
    ensures forall c :: c in cs <==> exists i :: 0 <= i < |eps| && eps[i].id == c && e in eps[i].parts
  {
    if eps == [] then [] else
    var n := |eps| - 1;
    assert forall i :: 0 <= i < n ==> eps[..n][i] == eps[i];
    Claimants(eps[..n], e) + ClaimsOf(eps[n].id, eps[n].parts, e)
  }

  /** i is the earliest position of a claimant of maximal depth. */
  ghost predicate DeepestFirst(eps: seq<Endpoint>, cs: seq<U16>, i: int) {
    0 <= i < |cs|
    && (forall j :: 0 <= j < |cs| ==> Depth(eps, cs[j]) <= Depth(eps, cs[i]))
    && (forall j :: 0 <= j < i ==> Depth(eps, cs[j]) < Depth(eps, cs[i]))
  }

  ghost predicate IsResolvedParent(eps: seq<Endpoint>, e: U16, p: U16) {
    var cs := Claimants(eps, e);
    if cs == [] then p == NO_PARENT else exists i :: DeepestFirst(eps, cs, i) && cs[i] == p
  }

  /** Only the parent fields changed, and each now holds the resolved parent. */
  ghost predicate Resolved(eps: seq<Endpoint>, after: seq<Endpoint>) {
    |after| == |eps|
    && forall i {:trigger after[i]} :: 0 <= i < |eps| ==>
      after[i] == eps[i].(parent := after[i].parent) && IsResolvedParent(eps, eps[i].id, after[i].parent)
  }

  lemma ResolvedParentIsUnique(eps: seq<Endpoint>, e: U16, p: U16, q: U16)
    requires IsResolvedParent(eps, e, p) && IsResolvedParent(eps, e, q)
    ensures p == q
  {
    var cs := Claimants(eps, e);
    if cs != [] {
      var i :| DeepestFirst(eps, cs, i) && cs[i] == p;
      var j :| DeepestFirst(eps, cs, j) && cs[j] == q;
      assert i == j;
    }
  }

  lemma UniqueFind(eps: seq<Endpoint>, i: nat)
    requires UniqueIds(eps) && i < |eps|
    ensures FindEndpoint(eps, eps[i].id) == i
  {
    var j := FindEndpoint(eps, eps[i].id);
    assert j >= i ==> j == i;
  }

  /** With unique ids, claiming is the same as listing. */
  lemma ClaimantsList(eps: seq<Endpoint>, e: U16, c: U16)
    requires UniqueIds(eps)
    ensures c in Claimants(eps, e) <==> e in PartsOf(eps, c)
  {
    if c in Claimants(eps, e) {
      var i :| 0 <= i < |eps| && eps[i].id == c && e in eps[i].parts;
      UniqueFind(eps, i);
    }
  }

  lemma ExtendPath(eps: seq<Endpoint>, p: seq<U16>, u: U16, v: U16)
    requires PathTo(eps, p, u) && v in PartsOf(eps, u)
    ensures PathTo(eps, p + [v], v)
  {
    var q := p + [v];
    forall i | 0 <= i < |q| - 1 ensures Edge(eps, q, i) {
      if i + 1 < |p| { assert Edge(eps, p, i); }
    }
  }

  lemma DepthIsShortest(eps: seq<Endpoint>, e: U16, d: nat)
    requires IsShortest(eps, e, d)
    ensures Reachable(eps, e) && Depth(eps, e) == d
  {
    var p :| PathTo(eps, p, e) && |p| == d + 1;
    assert IsShortest(eps, e, Depth(eps, e));
  }

  lemma RootDepth(eps: seq<Endpoint>)
    ensures Depth(eps, 0) == 0
  {
    if Reachable(eps, 0) {
      assert PathTo(eps, [0], 0);
      DepthIsShortest(eps, 0, 0);
    }
  }

  /** Everything but the root lies at least one edge away from it. */
  lemma NonRootDepth(eps: seq<Endpoint>, e: U16)
    requires e != 0 && Reachable(eps, e)
    ensures Depth(eps, e) >= 1
  {
    var p :| PathTo(eps, p, e) && |p| == Depth(eps, e) + 1;
  }

  // ---- Trees -------------------------------------------------------------------------------

  /** The endpoints form a tree rooted at 0: `par` maps every other endpoint to its parent, and
      `rank` strictly grows away from the root. */
  ghost predicate IsTree(eps: seq<Endpoint>, par: map<U16, U16>, rank: map<U16, nat>) {
    UniqueIds(eps) && HasEndpoint(eps, 0) && !HasEndpoint(eps, NO_PARENT)
    && par.Keys == Ids(eps) - {0} && rank.Keys == Ids(eps)
    && forall e :: e in par ==> par[e] in rank && rank[par[e]] < rank[e]
  }

  ghost predicate ListsChildren(eps: seq<Endpoint>, par: map<U16, U16>, e: U16) {
    forall c: U16 :: c in PartsOf(eps, e) <==> c in par && par[c] == e
  }

  ghost predicate ListsEveryone(eps: seq<Endpoint>, par: map<U16, U16>) {
    forall c: U16 :: c in PartsOf(eps, 0) <==> c in par
  }

  lemma {:induction false} TreeReaches(eps: seq<Endpoint>, par: map<U16, U16>, rank: map<U16, nat>, e: U16)
    requires IsTree(eps, par, rank) && e in rank
    requires forall c :: c in par ==> c in PartsOf(eps, par[c])
    ensures Reachable(eps, e)
    decreases rank[e]
  {
    if e == 0 {
      assert PathTo(eps, [0], 0);
    } else {
      TreeReaches(eps, par, rank, par[e]);
      var p :| PathTo(eps, p, par[e]);
      ExtendPath(eps, p, par[e], e);
    }
  }

  /** The root lists its children or everyone below it; every other endpoint lists its children. */
  ghost predicate TreeLists(eps: seq<Endpoint>, par: map<U16, U16>) {
    (ListsChildren(eps, par, 0) || ListsEveryone(eps, par)) && forall e :: e in par ==> ListsChildren(eps, par, e)
  }

  lemma ListedByParent(eps: seq<Endpoint>, par: map<U16, U16>, rank: map<U16, nat>)
    requires IsTree(eps, par, rank) && TreeLists(eps, par)
    ensures forall c :: c in par ==> c in PartsOf(eps, par[c])
  {
    forall c | c in par ensures c in PartsOf(eps, par[c]) {
      assert par[c] == 0 || par[c] in par;
    }
  }

  lemma TreeLister(eps: seq<Endpoint>, par: map<U16, U16>, rank: map<U16, nat>, e: U16, c: U16)
    requires IsTree(eps, par, rank) && TreeLists(eps, par)
    requires e in PartsOf(eps, c)
    ensures e in par && (c == 0 || c == par[e])
  {
    assert HasEndpoint(eps, c);
    if c != 0 { assert ListsChildren(eps, par, c); }
  }

  lemma TreeClaimant(eps: seq<Endpoint>, par: map<U16, U16>, rank: map<U16, nat>, e: U16, c: U16)
    requires IsTree(eps, par, rank) && TreeLists(eps, par)
    requires c in Claimants(eps, e)
    ensures e in par && (c == 0 || c == par[e])
  {
    ClaimantsList(eps, e, c);
    TreeLister(eps, par, rank, e, c);
  }

  /** With one claimant strictly deeper than all the others, that claimant is the parent. */
  lemma UniqueDeepest(eps: seq<Endpoint>, e: U16, p: U16, q: U16)
    requires IsResolvedParent(eps, e, p) && q in Claimants(eps, e)
    requires forall c :: c in Claimants(eps, e) && c != q ==> Depth(eps, c) < Depth(eps, q)
    ensures p == q
  {
    var cs := Claimants(eps, e);
    var i :| DeepestFirst(eps, cs, i) && cs[i] == p;
    var j :| 0 <= j < |cs| && cs[j] == q;
    assert Depth(eps, cs[j]) <= Depth(eps, cs[i]);
  }

  lemma TreeParent(eps: seq<Endpoint>, par: map<U16, U16>, rank: map<U16, nat>, e: U16, p: U16)
    requires IsTree(eps, par, rank) && TreeLists(eps, par) && e in par
    requires IsResolvedParent(eps, e, p)
    ensures p == par[e]
  {
    var q := par[e];
    ListedByParent(eps, par, rank);
    ClaimantsList(eps, e, q);
    if q != 0 {
      TreeReaches(eps, par, rank, q);
      NonRootDepth(eps, q);
    }
    RootDepth(eps);
    forall c | c in Claimants(eps, e) && c != q ensures Depth(eps, c) < Depth(eps, q) {
      TreeClaimant(eps, par, rank, e, c);
    }
    UniqueDeepest(eps, e, p, q);
  }

  /** A tree comes back exactly, whether the root lists its children or all its descendants. */
  lemma TreeRecovery(eps: seq<Endpoint>, after: seq<Endpoint>, par: map<U16, U16>, rank: map<U16, nat>, i: nat)
    requires IsTree(eps, par, rank) && TreeLists(eps, par)
    requires Resolved(eps, after) && i < |eps|
    ensures after[i].parent == if eps[i].id == 0 then NO_PARENT else par[eps[i].id]
  {
    var e := eps[i].id;
    assert after[i] == eps[i].(parent := after[i].parent) && IsResolvedParent(eps, e, after[i].parent);
    if e != 0 {
      assert e in Ids(eps);
      TreeParent(eps, par, rank, e, after[i].parent);
    } else if Claimants(eps, 0) != [] {
      TreeClaimant(eps, par, rank, 0, Claimants(eps, 0)[0]);
      assert false;
    }
  }

  // ---- Position in the table ---------------------------------------------------------------

  lemma {:induction false} ClaimantsPrefix(eps: seq<Endpoint>, e: U16, k: nat)
    requires k <= |eps|
    ensures Claimants(eps[..k], e) <= Claimants(eps, e)
  {
    if k == |eps| {
      assert eps[..k] == eps;
    } else {
      var n := |eps| - 1;
      ClaimantsPrefix(eps[..n], e, k);
      assert eps[..n][..k] == eps[..k];
    }
  }

  /** The resolved parent is the earliest endpoint in the table among the deepest claimants. */
  lemma EarliestDeepest(eps: seq<Endpoint>, e: U16, p: U16, k: nat)
    requires IsResolvedParent(eps, e, p)
    requires k < |eps| && e in eps[k].parts
    requires forall c :: c in Claimants(eps, e) ==> Depth(eps, c) <= Depth(eps, eps[k].id)
    requires forall j :: 0 <= j < k && e in eps[j].parts ==> Depth(eps, eps[j].id) < Depth(eps, eps[k].id)
    ensures p == eps[k].id
  {
    var cs := Claimants(eps, e);
    var before := Claimants(eps[..k], e);
    var m := |before|;
    ClaimantsPrefix(eps, e, k);
    ClaimantsPrefix(eps, e, k + 1);
    assert eps[..k + 1][..k] == eps[..k];
    var claims := ClaimsOf(eps[k].id, eps[k].parts, e);
    assert Claimants(eps[..k + 1], e) == before + claims;
    assert eps[k].id in claims;
    assert claims[0] in claims;
    assert cs[m] == eps[k].id;
    forall j | 0 <= j < m ensures Depth(eps, cs[j]) < Depth(eps, cs[m]) {
      assert cs[j] == before[j] && before[j] in before;
    }
    assert DeepestFirst(eps, cs, m);
    ResolvedParentIsUnique(eps, e, p, eps[k].id);
  }

  /** An endpoint has no claimant exactly when it is in nobody's parts list, and only then does
      the resolver leave it without a parent (0xFFFF itself being nobody's id). */
  lemma NoParentIffUnclaimed(eps: seq<Endpoint>, e: U16, p: U16)
    requires IsResolvedParent(eps, e, p)
    requires forall k :: 0 <= k < |eps| ==> eps[k].id != NO_PARENT
    ensures p == NO_PARENT <==> forall k :: 0 <= k < |eps| ==> e !in eps[k].parts
  {
    var cs := Claimants(eps, e);
    if k :| 0 <= k < |eps| && e in eps[k].parts {
      assert eps[k].id in cs;
    }
    if cs != [] {
      var i :| DeepestFirst(eps, cs, i) && cs[i] == p;
      assert cs[i] in cs;
    }
  }

  // ---- Full-family lists at every level -----------------------------------------------------

  /** a is a proper ancestor of e. */
  ghost predicate Below(par: map<U16, U16>, rank: map<U16, nat>, a: U16, e: U16)
    decreases if e in rank then rank[e] else 0
  {
    e in par && e in rank && par[e] in rank && rank[par[e]] < rank[e]
    && (par[e] == a || Below(par, rank, a, par[e]))
  }

  /** Every endpoint, not only the root, lists all its descendants. */
  ghost predicate ListsFamilies(eps: seq<Endpoint>, par: map<U16, U16>, rank: map<U16, nat>) {
    forall a: U16, e: U16 {:trigger Below(par, rank, a, e)} {:trigger e in PartsOf(eps, a)} ::
      HasEndpoint(eps, a) ==> (e in PartsOf(eps, a) <==> Below(par, rank, a, e))
  }

  lemma {:induction false} RootAboveAll(eps: seq<Endpoint>, par: map<U16, U16>, rank: map<U16, nat>, e: U16)
    requires IsTree(eps, par, rank) && e in par
    ensures Below(par, rank, 0, e)
    decreases rank[e]
  {
    assert e in Ids(eps);
    if par[e] != 0 {
      assert par[e] in Ids(eps);
      RootAboveAll(eps, par, rank, par[e]);
    }
  }

  lemma PartOfRootDepth(eps: seq<Endpoint>, e: U16)
    requires e in PartsOf(eps, 0) && e != 0
    ensures Depth(eps, e) == 1
  {
    assert PathTo(eps, [0], 0);
    ExtendPath(eps, [0], 0, e);
    assert PathTo(eps, [0] + [e], e);
    NonRootDepth(eps, e);
  }

  /** Shortest distance cannot tell the levels apart: everything is one step from the root. */
  lemma FamilyDepth(eps: seq<Endpoint>, par: map<U16, U16>, rank: map<U16, nat>, e: U16)
    requires IsTree(eps, par, rank) && ListsFamilies(eps, par, rank) && e in par
    ensures Depth(eps, e) == 1
  {
    assert e in PartsOf(eps, 0) by { RootAboveAll(eps, par, rank, e); }
    PartOfRootDepth(eps, e);
  }

  lemma FamilyClaimantDepth(eps: seq<Endpoint>, par: map<U16, U16>, rank: map<U16, nat>, e: U16, c: U16)
    requires IsTree(eps, par, rank) && ListsFamilies(eps, par, rank) && c in Claimants(eps, e)
    ensures Depth(eps, c) == if c == 0 then 0 else 1
  {
    if c == 0 {
      RootDepth(eps);
    } else {
      ClaimantsList(eps, e, c);
      assert HasEndpoint(eps, c) && c in Ids(eps);
      FamilyDepth(eps, par, rank, c);
    }
  }

  /** k is the first endpoint of the table, other than the root, that lists e. */
  ghost predicate FirstLister(eps: seq<Endpoint>, e: U16, k: int) {
    0 <= k < |eps| && eps[k].id != 0 && e in eps[k].parts
    && forall j :: 0 <= j < k && eps[j].id != 0 ==> e !in eps[j].parts
  }

  lemma FamilyFirstLister(eps: seq<Endpoint>, par: map<U16, U16>, rank: map<U16, nat>, e: U16, p: U16, k: nat)
    requires IsTree(eps, par, rank) && ListsFamilies(eps, par, rank)
    requires IsResolvedParent(eps, e, p) && FirstLister(eps, e, k)
    ensures p == eps[k].id
  {
    assert eps[k].id in Claimants(eps, e);
    FamilyClaimantDepth(eps, par, rank, e, eps[k].id);
    forall c | c in Claimants(eps, e) ensures Depth(eps, c) <= 1 {
      FamilyClaimantDepth(eps, par, rank, e, c);
    }
    RootDepth(eps);
    EarliestDeepest(eps, e, p, k);
  }

  lemma FirstListerUpTo(eps: seq<Endpoint>, e: U16, k: nat) returns (f: nat)
    requires k < |eps| && eps[k].id != 0 && e in eps[k].parts
    ensures f <= k && FirstLister(eps, e, f)
  {
    if j :| 0 <= j < k && eps[j].id != 0 && e in eps[j].parts {
      f := FirstListerUpTo(eps, e, j);
    } else {
      f := k;
    }
  }

  /** When every level lists its whole family the tree is recovered at e exactly when e's parent is
      the root or stands in the table before every other non-root endpoint that lists e. */
  lemma FullFamilyRecovery(eps: seq<Endpoint>, par: map<U16, U16>, rank: map<U16, nat>, e: U16, p: U16)
    requires IsTree(eps, par, rank) && ListsFamilies(eps, par, rank)
    requires e in par && IsResolvedParent(eps, e, p)
    ensures p == par[e] <==> par[e] == 0 || FirstLister(eps, e, FindEndpoint(eps, par[e]))
  {
    ParentListsFamily(eps, par, rank, e);
    if par[e] == 0 {
      RootOnlyAncestor(eps, par, rank, e, p);
    } else {
      var k := FindEndpoint(eps, par[e]);
      var f := FirstListerUpTo(eps, e, k);
      FamilyFirstLister(eps, par, rank, e, p, f);
      assert FirstLister(eps, e, k) ==> f == k;
      assert f != k ==> eps[f].id != eps[k].id;
    }
  }

  lemma ParentListsFamily(eps: seq<Endpoint>, par: map<U16, U16>, rank: map<U16, nat>, e: U16)
    requires IsTree(eps, par, rank) && ListsFamilies(eps, par, rank) && e in par
    ensures HasEndpoint(eps, par[e]) && e in PartsOf(eps, par[e])
  {
    assert e in Ids(eps) && par[e] in Ids(eps);
    assert Below(par, rank, par[e], e);
  }

  lemma FamilyClaimant(eps: seq<Endpoint>, par: map<U16, U16>, rank: map<U16, nat>, e: U16, c: U16)
    requires UniqueIds(eps) && ListsFamilies(eps, par, rank) && c in Claimants(eps, e)
    ensures Below(par, rank, c, e)
  {
    ClaimantsList(eps, e, c);
  }

  lemma RootOnlyAncestor(eps: seq<Endpoint>, par: map<U16, U16>, rank: map<U16, nat>, e: U16, p: U16)
    requires UniqueIds(eps) && ListsFamilies(eps, par, rank) && 0 !in par
    requires e in par && par[e] == 0 && e in PartsOf(eps, 0) && IsResolvedParent(eps, e, p)
    ensures p == 0
  {
    var cs := Claimants(eps, e);
    assert cs != [] by { ClaimantsList(eps, e, 0); }
    var i :| DeepestFirst(eps, cs, i) && cs[i] == p;
    FamilyClaimant(eps, par, rank, e, p);
  }

  /** Endpoint 0 lists 1, 2 and 3, aggregator 1 lists 2 and 3, and 2 lists 3. */
  ghost predicate NestedFamilies(eps: seq<Endpoint>) {
    |eps| == 4 && (forall i :: 0 <= i < 4 ==> eps[i].id == i)
    && (forall i, e: U16 :: 0 <= i < 4 ==> (e in eps[i].parts <==> i < e < 4))
  }

  lemma NestedBelow(par: map<U16, U16>, rank: map<U16, nat>, a: U16, e: U16)
    requires par == map[1 := 0, 2 := 1, 3 := 2] && rank == map[0 := 0, 1 := 1, 2 := 2, 3 := 3]
    ensures Below(par, rank, a, e) <==> a < e < 4
  {
    if e in par { NestedBelow(par, rank, a, par[e]); }
  }

  lemma NestedIds(eps: seq<Endpoint>)
    requires NestedFamilies(eps)
    ensures Ids(eps) == {0, 1, 2, 3} && UniqueIds(eps)
    ensures forall i: U16 :: HasEndpoint(eps, i) <==> i < 4
  {
    forall i: U16 ensures i in Ids(eps) <==> i < 4 {
      if i < 4 { assert eps[i].id == i; }
    }
  }

  lemma NestedParts(eps: seq<Endpoint>, a: U16)
    requires NestedFamilies(eps) && a < 4
    ensures forall e: U16 :: e in PartsOf(eps, a) <==> a < e < 4
  {
    NestedIds(eps);
    UniqueFind(eps, a);
    assert PartsOf(eps, a) == eps[a].parts;
  }

  lemma NestedIsATree(eps: seq<Endpoint>, par: map<U16, U16>, rank: map<U16, nat>)
    requires NestedFamilies(eps)
    requires par == map[1 := 0, 2 := 1, 3 := 2] && rank == map[0 := 0, 1 := 1, 2 := 2, 3 := 3]
    ensures IsTree(eps, par, rank)
  {
    NestedIds(eps);
  }

  lemma NestedListsFamilies(eps: seq<Endpoint>, par: map<U16, U16>, rank: map<U16, nat>)
    requires NestedFamilies(eps)
    requires par == map[1 := 0, 2 := 1, 3 := 2] && rank == map[0 := 0, 1 := 1, 2 := 2, 3 := 3]
    ensures ListsFamilies(eps, par, rank)
  {
    forall a: U16, e: U16 | HasEndpoint(eps, a)
      ensures e in PartsOf(eps, a) <==> Below(par, rank, a, e)
    {
      NestedIds(eps);
      NestedBelow(par, rank, a, e);
      NestedParts(eps, a);
    }
  }

  /** With 1 standing before 2 in the table, 3 comes back under 1 although its parent is 2. */
  lemma FullFamilyMisplaces(eps: seq<Endpoint>, after: seq<Endpoint>)
    requires NestedFamilies(eps) && Resolved(eps, after)
    ensures after[3].parent == 1
  {
    var par: map<U16, U16> := map[1 := 0, 2 := 1, 3 := 2];
    var rank: map<U16, nat> := map[0 := 0, 1 := 1, 2 := 2, 3 := 3];
    NestedIsATree(eps, par, rank);
    NestedListsFamilies(eps, par, rank);
    assert after[3] == eps[3].(parent := after[3].parent) && IsResolvedParent(eps, 3, after[3].parent);
    FamilyFirstLister(eps, par, rank, 3, after[3].parent, 1);
  }

  // ---- Parent chains ------------------------------------------------------------------------

  ghost predicate Acyclic(eps: seq<Endpoint>) {
    !exists p :: IsPath(eps, p) && |p| > 1 && p[0] == p[|p| - 1]
  }

  /** The parent recorded for e in a resolved table. */
  function ParentOf(after: seq<Endpoint>, e: U16): U16 {
    if HasEndpoint(after, e) then after[FindEndpoint(after, e)].parent else NO_PARENT
  }

  /** A chain of recorded parents: each element is the parent of the one after it. */
  ghost predicate ParentChain(after: seq<Endpoint>, c: seq<U16>) {
    |c| > 0 && forall i :: 0 <= i < |c| - 1 ==> ParentLink(after, c, i)
  }

  ghost predicate ParentLink(after: seq<Endpoint>, c: seq<U16>, i: nat)
    requires i + 1 < |c|
  {
    c[i] == ParentOf(after, c[i + 1])
  }

  lemma ResolvedFind(eps: seq<Endpoint>, after: seq<Endpoint>, e: U16)
    requires Resolved(eps, after) && HasEndpoint(eps, e)
    ensures HasEndpoint(after, e) && IsResolvedParent(eps, e, ParentOf(after, e))
  {
    var i := FindEndpoint(eps, e);
    assert after[i].id == e;
    var j := FindEndpoint(after, e);
    assert after[j] == eps[j].(parent := after[j].parent) && IsResolvedParent(eps, eps[j].id, after[j].parent);
  }

  /** A reachable endpoint other than the root has a parent that lists it. */
  lemma HasRealParent(eps: seq<Endpoint>, after: seq<Endpoint>, e: U16)
    requires UniqueIds(eps) && Resolved(eps, after) && HasEndpoint(eps, e)
    requires e != 0 && Reachable(eps, e)
    ensures e in PartsOf(eps, ParentOf(after, e))
  {
    var p :| PathTo(eps, p, e);
    var n := |p| - 1;
    assert Edge(eps, p, n - 1);
    ClaimantsList(eps, e, p[n - 1]);
    ResolvedFind(eps, after, e);
    var cs := Claimants(eps, e);
    var i :| DeepestFirst(eps, cs, i) && cs[i] == ParentOf(after, e);
    ClaimantsList(eps, e, cs[i]);
  }

  lemma PrependPath(eps: seq<Endpoint>, u: U16, p: seq<U16>)
    requires IsPath(eps, p) && p[0] in PartsOf(eps, u)
    ensures IsPath(eps, [u] + p)
  {
    var q := [u] + p;
    forall i | 0 <= i < |q| - 1 ensures Edge(eps, q, i) {
      if i > 0 { assert Edge(eps, p, i - 1); }
    }
  }

  lemma CycleBack(eps: seq<Endpoint>, u: U16, p: seq<U16>, i: nat)
    requires IsPath(eps, p) && p[0] in PartsOf(eps, u) && i < |p| && p[i] == u
    ensures !Acyclic(eps)
  {
    var q := p[..i + 1];
    forall j | 0 <= j < |q| - 1 ensures Edge(eps, q, j) {
      assert Edge(eps, p, j);
    }
    PrependPath(eps, u, q);
    assert ([u] + q)[|q|] == u;
  }

  /** In an acyclic graph a step back from a path never meets the path again. */
  lemma FreshPredecessor(eps: seq<Endpoint>, u: U16, p: seq<U16>)
    requires Acyclic(eps) && IsPath(eps, p) && p[0] in PartsOf(eps, u)
    ensures u !in p
  {
    if i :| 0 <= i < |p| && p[i] == u {
      CycleBack(eps, u, p, i);
    }
  }

  /** A path made of endpoints of the table, each recorded as the parent of the next. */
  ghost predicate ParentPath(eps: seq<Endpoint>, after: seq<Endpoint>, c: seq<U16>) {
    IsPath(eps, c) && NoDuplicates(c) && ParentChain(after, c) && forall e :: e in c ==> e in Ids(eps)
  }

  lemma LongerChain(eps: seq<Endpoint>, after: seq<Endpoint>, u: U16, c: seq<U16>)
    requires Acyclic(eps) && ParentPath(eps, after, c)
    requires c[0] in PartsOf(eps, u) && u == ParentOf(after, c[0])
    ensures ParentPath(eps, after, [u] + c)
  {
    FreshPredecessor(eps, u, c);
    PrependPath(eps, u, c);
    var longer := [u] + c;
    assert HasEndpoint(eps, u);
    assert forall e :: e in longer ==> e == u || e in c;
    forall i | 0 <= i < |longer| - 1 ensures ParentLink(after, longer, i) {
      if i > 0 { assert ParentLink(after, c, i - 1); }
    }
  }

  ghost predicate ResolvedDag(eps: seq<Endpoint>, after: seq<Endpoint>) {
    UniqueIds(eps) && Resolved(eps, after) && Acyclic(eps) && forall e :: e in Ids(eps) ==> Reachable(eps, e)
  }

  lemma NextLink(eps: seq<Endpoint>, after: seq<Endpoint>, c: seq<U16>) returns (longer: seq<U16>)
    requires ResolvedDag(eps, after) && ParentPath(eps, after, c) && c[0] != 0
    ensures ParentPath(eps, after, longer) && |c| < |longer| <= |eps| && longer[|longer| - 1] == c[|c| - 1]
  {
    assert c[0] in c;
    HasRealParent(eps, after, c[0]);
    longer := [ParentOf(after, c[0])] + c;
    LongerChain(eps, after, longer[0], c);
    DistinctFits(longer, Ids(eps));
    IdsFit(eps);
  }

  lemma {:induction false} ChainToRoot(eps: seq<Endpoint>, after: seq<Endpoint>, c: seq<U16>) returns (d: seq<U16>)
    requires ResolvedDag(eps, after) && ParentPath(eps, after, c)
    ensures ParentPath(eps, after, d) && d[0] == 0 && d[|d| - 1] == c[|c| - 1]
    decreases |eps| - |c|
  {
    d := c;
    if c[0] != 0 {
      d := NextLink(eps, after, c);
      d := ChainToRoot(eps, after, d);
    }
  }

  /** In an acyclic graph whose endpoints are all reachable, following recorded parents from any
      endpoint ends at the root after fewer steps than there are endpoints. */
  lemma ParentsLeadToRoot(eps: seq<Endpoint>, after: seq<Endpoint>, e: U16) returns (d: seq<U16>)
    requires ResolvedDag(eps, after) && HasEndpoint(eps, e)
    ensures ParentChain(after, d) && d[0] == 0 && d[|d| - 1] == e && |d| - 1 < |eps|
  {
    assert forall x :: x in [e] ==> x == e;
    d := ChainToRoot(eps, after, [e]);
    DistinctFits(d, Ids(eps));
    IdsFit(eps);
  }

  lemma EdgeRanks(eps: seq<Endpoint>, par: map<U16, U16>, rank: map<U16, nat>, c: U16, e: U16)
    requires IsTree(eps, par, rank) && TreeLists(eps, par) && e in PartsOf(eps, c)
    ensures c in rank && e in rank && rank[c] < rank[e]
  {
    TreeLister(eps, par, rank, e, c);
    if c == 0 { RootRanksFirst(par, rank, eps, e); }
  }

  /** Along any path in a tree's parts graph the rank grows. */
  lemma {:induction false} RankGrows(eps: seq<Endpoint>, par: map<U16, U16>, rank: map<U16, nat>, p: seq<U16>)
    requires IsTree(eps, par, rank) && TreeLists(eps, par) && IsPath(eps, p) && |p| > 1
    ensures p[0] in rank && p[|p| - 1] in rank && rank[p[0]] < rank[p[|p| - 1]]
    decreases |p|
  {
    hide IsTree, TreeLists, PartsOf;
    var n := |p| - 1;
    assert Edge(eps, p, n - 1);
    EdgeRanks(eps, par, rank, p[n - 1], p[n]);
    if n > 1 {
      assert forall i :: 0 <= i < n - 1 ==> (Edge(eps, p[..n], i) <==> Edge(eps, p, i));
      RankGrows(eps, par, rank, p[..n]);
    }
  }

  lemma {:induction false} RootRanksFirst(par: map<U16, U16>, rank: map<U16, nat>, eps: seq<Endpoint>, e: U16)
    requires IsTree(eps, par, rank) && e in par
    ensures rank[0] < rank[e]
    decreases rank[e]
  {
    if par[e] != 0 { RootRanksFirst(par, rank, eps, par[e]); }
  }

  /** So every tree meets the conditions of ParentsLeadToRoot. */
  lemma TreesLeadToRoot(eps: seq<Endpoint>, after: seq<Endpoint>, par: map<U16, U16>, rank: map<U16, nat>)
    requires IsTree(eps, par, rank) && TreeLists(eps, par) && Resolved(eps, after)
    ensures ResolvedDag(eps, after)
  {
    assert Acyclic(eps) by {
      hide IsTree, TreeLists, Edge, IsPath;
      if p :| IsPath(eps, p) && |p| > 1 && p[0] == p[|p| - 1] { RankGrows(eps, par, rank, p); }
    }
    ListedByParent(eps, par, rank);
    forall e | e in Ids(eps) ensures Reachable(eps, e) { TreeReaches(eps, par, rank, e); }
  }
}

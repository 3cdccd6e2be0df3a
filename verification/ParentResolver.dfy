/** The three passes of device_manager_resolve_parents, each a loop over mutable maps. */
module ParentResolver {
  import opened CTypes
  import opened Endpoints
  import opened Topology

  function Tally(m: map<U16, seq<U16>>, e: U16): seq<U16> {
    if e in m then m[e] else []
  }

  lemma ClaimantsStep(eps: seq<Endpoint>, i: nat)
    requires i < |eps|
    ensures forall e: U16 ::
      Claimants(eps[..i + 1], e) == Claimants(eps[..i], e) + ClaimsOf(eps[i].id, eps[i].parts, e)
  {
    assert eps[..i + 1][..i] == eps[..i];
  }

  lemma ClaimsStart(id: U16)
    ensures forall e: U16 :: ClaimsOf(id, [], e) == []
  {
  }

  lemma ClaimsStep(id: U16, parts: seq<U16>, j: nat)
    requires j < |parts|
    ensures forall e: U16 ::
      ClaimsOf(id, parts[..j + 1], e) == ClaimsOf(id, parts[..j], e) + if parts[j] == e then [id] else []
  {
    assert parts[..j + 1][..j] == parts[..j];
  }

  /** First pass, inner loop: endpoint `id` claims each of its parts. */
  method ClaimParts(claimants: map<U16, seq<U16>>, id: U16, parts: seq<U16>) returns (more: map<U16, seq<U16>>)
    ensures forall e: U16 :: Tally(more, e) == Tally(claimants, e) + ClaimsOf(id, parts, e)
    ensures forall e :: e in more ==> e in claimants || more[e] != []
  {
    hide ClaimsOf;
    more := claimants;
    ClaimsStart(id);
    for j := 0 to |parts|
      invariant forall e: U16 :: Tally(more, e) == Tally(claimants, e) + ClaimsOf(id, parts[..j], e)
      invariant forall e :: e in claimants ==> e in more
      invariant forall e :: e in more ==> e in claimants || more[e] != []
    {
      ClaimsStep(id, parts, j);
      more := more[parts[j] := Tally(more, parts[j]) + [id]];
    }
    assert parts[..|parts|] == parts;
  }

  /** First pass: for each part id, who lists it. */
  method BuildClaimants(eps: seq<Endpoint>) returns (claimants: map<U16, seq<U16>>)
    ensures forall e: U16 :: Tally(claimants, e) == Claimants(eps, e)
    ensures forall e :: e in claimants ==> claimants[e] != []
  {
    claimants := map[];
    for i := 0 to |eps|
      invariant forall e: U16 :: Tally(claimants, e) == Claimants(eps[..i], e)
      invariant forall e :: e in claimants ==> claimants[e] != []
    {
      ClaimantsStep(eps, i);
      var more := ClaimParts(claimants, eps[i].id, eps[i].parts);
      forall e | e in more ensures more[e] != [] {
        assert Tally(more, e) == Tally(claimants, e) + ClaimsOf(eps[i].id, eps[i].parts, e);
      }
      claimants := more;
    }
    assert eps[..|eps|] == eps;
  }

  ghost function Universe(eps: seq<Endpoint>): set<U16> {
    {0} + set i, v | 0 <= i < |eps| && v in eps[i].parts :: v
  }

  /** Every recorded depth is the length of some path. */
  ghost predicate Witnessed(eps: seq<Endpoint>, depth: map<U16, nat>) {
    forall e :: e in depth ==> exists p :: PathTo(eps, p, e) && |p| == depth[e] + 1
  }

  /** The edges of u lead at most one step further than u. */
  ghost predicate Settled(depth: map<U16, nat>, u: U16, parts: seq<U16>) {
    u in depth && forall v :: v in parts ==> v in depth && depth[v] <= depth[u] + 1
  }

  /** The queue history: its ids are exactly those with a depth, each once, in order of depth. */
  ghost predicate Queued(order: seq<U16>, depth: map<U16, nat>) {
    NoDuplicates(order)
    && (forall e :: e in order <==> e in depth)
    && forall i, j :: 0 <= i < j < |order| ==> depth[order[i]] <= depth[order[j]]
  }

  lemma Enqueue(order: seq<U16>, depth: map<U16, nat>, v: U16, d: nat)
    requires Queued(order, depth) && v !in depth
    requires forall e :: e in depth ==> depth[e] <= d
    ensures Queued(order + [v], depth[v := d])
  {
    var o, m := order + [v], depth[v := d];
    forall i, j | 0 <= i < j < |o| ensures o[i] != o[j] && m[o[i]] <= m[o[j]] {
      assert order[i] in order;
      if j < |order| { assert order[j] in order; }
    }
  }

  lemma WitnessStep(eps: seq<Endpoint>, depth: map<U16, nat>, u: U16, v: U16)
    requires Witnessed(eps, depth) && u in depth && v in PartsOf(eps, u) && v !in depth
    ensures Witnessed(eps, depth[v := depth[u] + 1])
  {
    var p :| PathTo(eps, p, u) && |p| == depth[u] + 1;
    ExtendPath(eps, p, u, v);
    assert PathTo(eps, p + [v], v) && |p + [v]| == depth[u] + 2;
  }

  lemma {:induction false} NoShorterPath(eps: seq<Endpoint>, depth: map<U16, nat>, p: seq<U16>, e: U16)
    requires PathTo(eps, p, e) && 0 in depth && depth[0] == 0
    requires forall u :: u in depth ==> Settled(depth, u, PartsOf(eps, u))
    ensures e in depth && depth[e] + 1 <= |p|
    decreases |p|
  {
    if |p| > 1 {
      var q, u := p[..|p| - 1], p[|p| - 2];
      forall i | 0 <= i < |q| - 1 ensures Edge(eps, q, i) { assert Edge(eps, p, i); }
      NoShorterPath(eps, depth, q, u);
      assert Edge(eps, p, |p| - 2);
      assert Settled(depth, u, PartsOf(eps, u));
    }
  }

  /** The map holds the ids reachable from endpoint 0, each with its shortest distance. */
  ghost predicate IsDepthMap(eps: seq<Endpoint>, depth: map<U16, nat>) {
    forall e: U16 :: (e in depth <==> Reachable(eps, e)) && (e in depth ==> depth[e] == Depth(eps, e))
  }

  lemma SettledIsDepthMap(eps: seq<Endpoint>, depth: map<U16, nat>)
    requires HasEndpoint(eps, 0) && 0 in depth && depth[0] == 0 && Witnessed(eps, depth)
    requires forall u :: u in depth ==> Settled(depth, u, PartsOf(eps, u))
    ensures IsDepthMap(eps, depth)
  {
    forall e: U16
      ensures (e in depth <==> Reachable(eps, e)) && (e in depth ==> depth[e] == Depth(eps, e))
    {
      forall p | PathTo(eps, p, e) ensures e in depth && depth[e] + 1 <= |p| {
        NoShorterPath(eps, depth, p, e);
      }
      if e in depth {
        assert IsShortest(eps, e, depth[e]);
        DepthIsShortest(eps, e, depth[e]);
      }
    }
  }

  /** What one visit adds: `pushed` are new ids one step below `cur`, and nothing else changes. */
  ghost predicate Grown(order: seq<U16>, depth: map<U16, nat>, cur: U16, pushed: seq<U16>, deeper: map<U16, nat>) {
    Queued(order + pushed, deeper) && cur in depth
    && (forall e :: e in deeper ==> deeper[e] <= depth[cur] + 1)
    && forall e :: e in depth ==> e in deeper && deeper[e] == depth[e]
  }

  lemma GrowByOne(order: seq<U16>, depth: map<U16, nat>, cur: U16, pushed: seq<U16>, deeper: map<U16, nat>, v: U16)
    requires Grown(order, depth, cur, pushed, deeper) && v !in deeper
    ensures Grown(order, depth, cur, pushed + [v], deeper[v := depth[cur] + 1])
  {
    Enqueue(order + pushed, deeper, v, depth[cur] + 1);
    assert order + pushed + [v] == order + (pushed + [v]);
  }

  /** Second pass, inner loop: every part without a depth gets one more than `cur` and is pushed. */
  method VisitParts(eps: seq<Endpoint>, cur: U16, parts: seq<U16>, depth: map<U16, nat>, ghost order: seq<U16>)
    returns (deeper: map<U16, nat>, pushed: seq<U16>)
    requires parts == PartsOf(eps, cur) && Grown(order, depth, cur, [], depth) && Witnessed(eps, depth)
    ensures Grown(order, depth, cur, pushed, deeper) && Witnessed(eps, deeper)
    ensures forall e :: e in pushed ==> e in parts
    ensures Settled(deeper, cur, parts)
  {
    hide Queued, Witnessed, PartsOf;
    deeper, pushed := depth, [];
    for j := 0 to |parts|
      invariant Grown(order, depth, cur, pushed, deeper) && Witnessed(eps, deeper)
      invariant forall e :: e in pushed ==> e in parts
      invariant Settled(deeper, cur, parts[..j])
    {
      var part := parts[j];
      if part !in deeper {
        GrowByOne(order, depth, cur, pushed, deeper, part);
        WitnessStep(eps, deeper, cur, part);
        deeper, pushed := deeper[part := deeper[cur] + 1], pushed + [part];
      }
      assert parts[..j + 1] == parts[..j] + [part];
    }
    assert parts[..|parts|] == parts;
  }

  /** What holds of the search whenever the queue is looked at. */
  ghost predicate BfsState(eps: seq<Endpoint>, popped: seq<U16>, q: seq<U16>, depth: map<U16, nat>) {
    Queued(popped + q, depth) && 0 in depth && depth[0] == 0 && Witnessed(eps, depth)
    && (q != [] ==> forall e :: e in depth ==> depth[e] <= depth[q[0]] + 1)
    && (forall u :: u in popped ==> Settled(depth, u, PartsOf(eps, u)))
    && forall e :: e in depth ==> e in Universe(eps)
  }

  lemma FrontGrown(eps: seq<Endpoint>, popped: seq<U16>, q: seq<U16>, depth: map<U16, nat>)
    requires q != [] && BfsState(eps, popped, q, depth)
    ensures Grown(popped + q, depth, q[0], [], depth)
  {
    assert popped + q + [] == popped + q;
    assert (popped + q)[|popped|] == q[0];
    assert q[0] in popped + q;
  }

  /** One turn of the search: the endpoint at the front is looked up and its parts visited. */
  method VisitFront(eps: seq<Endpoint>, ghost popped: seq<U16>, q: seq<U16>, depth: map<U16, nat>)
    returns (deeper: map<U16, nat>, pushed: seq<U16>)
    requires q != [] && BfsState(eps, popped, q, depth)
    ensures Grown(popped + q, depth, q[0], pushed, deeper) && Witnessed(eps, deeper)
    ensures forall e :: e in pushed ==> e in PartsOf(eps, q[0])
    ensures Settled(deeper, q[0], PartsOf(eps, q[0]))
  {
    hide Queued, Witnessed, Settled, Grown;
    FrontGrown(eps, popped, q, depth);
    var i := FindEndpoint(eps, q[0]);
    deeper, pushed := VisitParts(eps, q[0], if i < |eps| then eps[i].parts else [], depth, popped + q);
  }

  /** Popping the front and pushing what its parts added leads to the next such state. */
  lemma BfsStep(eps: seq<Endpoint>, popped: seq<U16>, q: seq<U16>, depth: map<U16, nat>,
                deeper: map<U16, nat>, pushed: seq<U16>)
    requires q != [] && BfsState(eps, popped, q, depth)
    requires Grown(popped + q, depth, q[0], pushed, deeper) && Witnessed(eps, deeper)
    requires forall e :: e in pushed ==> e in PartsOf(eps, q[0])
    requires Settled(deeper, q[0], PartsOf(eps, q[0]))
    ensures BfsState(eps, popped + [q[0]], q[1..] + pushed, deeper)
  {
    hide Queued, Witnessed, Settled, PartsOf;
    var rest := q[1..] + pushed;
    assert (popped + [q[0]]) + rest == popped + q + pushed;
    FrontIsShallow(popped, q[0], rest, deeper);
    if rest != [] {
      assert rest[0] in rest;
    }
    StillSettled(eps, popped, q[0], depth, deeper);
    InUniverse(eps, popped + q, pushed, depth, deeper, q[0]);
  }

  lemma StillSettled(eps: seq<Endpoint>, popped: seq<U16>, cur: U16, depth: map<U16, nat>, deeper: map<U16, nat>)
    requires forall u :: u in popped ==> Settled(depth, u, PartsOf(eps, u))
    requires forall e :: e in depth ==> e in deeper && deeper[e] == depth[e]
    requires Settled(deeper, cur, PartsOf(eps, cur))
    ensures forall u :: u in popped + [cur] ==> Settled(deeper, u, PartsOf(eps, u))
  {
    forall u | u in popped + [cur] ensures Settled(deeper, u, PartsOf(eps, u)) {
      if u in popped { assert Settled(depth, u, PartsOf(eps, u)); }
    }
  }

  lemma FrontIsShallow(popped: seq<U16>, cur: U16, rest: seq<U16>, depth: map<U16, nat>)
    requires Queued((popped + [cur]) + rest, depth)
    ensures cur in depth && forall e :: e in rest ==> e in depth && depth[cur] <= depth[e]
  {
    var order := (popped + [cur]) + rest;
    assert order[|popped|] == cur;
    forall k | 0 <= k < |rest| ensures rest[k] in depth && depth[cur] <= depth[rest[k]] {
      assert order[|popped| + 1 + k] == rest[k];
      assert rest[k] in order;
    }
    assert cur in order;
  }

  lemma InUniverse(eps: seq<Endpoint>, order: seq<U16>, pushed: seq<U16>, depth: map<U16, nat>,
                   deeper: map<U16, nat>, cur: U16)
    requires Queued(order, depth) && Queued(order + pushed, deeper)
    requires forall e :: e in depth ==> e in Universe(eps)
    requires forall e :: e in pushed ==> e in PartsOf(eps, cur)
    ensures forall e :: e in deeper ==> e in Universe(eps)
  {
    forall e | e in deeper ensures e in Universe(eps) {
      assert e in order + pushed;
    }
  }

  lemma {:induction false} PoppedFits(eps: seq<Endpoint>, popped: seq<U16>, q: seq<U16>, depth: map<U16, nat>)
    requires BfsState(eps, popped, q, depth)
    ensures |popped| + |q| <= |Universe(eps)|
  {
    DistinctFits(popped + q, Universe(eps));
  }

  lemma BfsStart(eps: seq<Endpoint>)
    requires HasEndpoint(eps, 0)
    ensures BfsState(eps, [], [0], map[0 := 0])
  {
    assert PathTo(eps, [0], 0);
  }

  lemma BfsDone(eps: seq<Endpoint>, popped: seq<U16>, depth: map<U16, nat>)
    requires HasEndpoint(eps, 0) && BfsState(eps, popped, [], depth)
    ensures IsDepthMap(eps, depth)
    ensures NoDuplicates(popped) && forall e :: e in popped <==> e in depth
  {
    assert popped + [] == popped;
    SettledIsDepthMap(eps, depth);
  }

  lemma Unrooted(eps: seq<Endpoint>)
    requires !HasEndpoint(eps, 0)
    ensures IsDepthMap(eps, map[])
  {
  }

  /** Second pass: breadth-first search from endpoint 0. `pushes` records every push, in order. */
  method ComputeDepths(eps: seq<Endpoint>) returns (depth: map<U16, nat>, ghost pushes: seq<U16>)
    ensures IsDepthMap(eps, depth)
    ensures NoDuplicates(pushes) && forall e :: e in pushes <==> e in depth
  {
    hide PartsOf, Queued, Witnessed, Settled, Universe, IsDepthMap;
    depth, pushes := map[], [];
    if !HasEndpoint(eps, 0) {
      Unrooted(eps);
      return;
    }
    var q: seq<U16> := [0];
    depth := depth[0 := 0];
    BfsStart(eps);
    ghost var popped: seq<U16> := [];
    while q != []
      invariant BfsState(eps, popped, q, depth)
      decreases |Universe(eps)| - |popped|
    {
      PoppedFits(eps, popped, q, depth);
      var deeper, pushed := VisitFront(eps, popped, q, depth);
      BfsStep(eps, popped, q, depth, deeper, pushed);
      popped, q, depth := popped + [q[0]], q[1..] + pushed, deeper;
    }
    pushes := popped;
    BfsDone(eps, popped, depth);
  }

  function DepthOr0(depth: map<U16, nat>, e: U16): nat {
    if e in depth then depth[e] else 0
  }

  lemma DepthFromMap(eps: seq<Endpoint>, depth: map<U16, nat>, e: U16)
    requires IsDepthMap(eps, depth)
    ensures DepthOr0(depth, e) == Depth(eps, e)
  {
  }

  /** Third pass, inner loop: the first claimant of greatest depth. */
  method PickDeepest(eps: seq<Endpoint>, cs: seq<U16>, depth: map<U16, nat>) returns (best: U16)
    requires IsDepthMap(eps, depth)
    ensures cs == [] ==> best == NO_PARENT
    ensures cs != [] ==> exists i :: DeepestFirst(eps, cs, i) && cs[i] == best
  {
    hide Depth, IsDepthMap;
    best := NO_PARENT;
    var bestDepth: int := -1;
    ghost var at: int := 0;
    for k := 0 to |cs|
      invariant k == 0 ==> bestDepth == -1 && best == NO_PARENT
      invariant 0 <= at <= k
      invariant k > 0 ==> at < k && cs[at] == best && bestDepth == Depth(eps, best)
      invariant forall j :: 0 <= j < k ==> Depth(eps, cs[j]) <= bestDepth
      invariant forall j :: 0 <= j < at ==> Depth(eps, cs[j]) < bestDepth
    {
      var d := DepthOr0(depth, cs[k]);
      DepthFromMap(eps, depth, cs[k]);
      if d > bestDepth {
        bestDepth, best, at := d, cs[k], k;
      }
    }
    assert cs != [] ==> DeepestFirst(eps, cs, at);
  }

  /** The whole pass over one device's endpoints. */
  method ResolveEndpoints(eps: seq<Endpoint>) returns (after: seq<Endpoint>)
    ensures Resolved(eps, after)
  {
    var claimants := BuildClaimants(eps);
    var depth, order := ComputeDepths(eps);
    after := eps;
    for i := 0 to |eps|
      invariant |after| == |eps| && after[i..] == eps[i..]
      invariant forall k {:trigger after[k]} :: 0 <= k < i ==>
        after[k] == eps[k].(parent := after[k].parent) && IsResolvedParent(eps, eps[k].id, after[k].parent)
    {
      var e := after[i].id;
      assert after[i] == eps[i];
      assert Tally(claimants, e) == Claimants(eps, e);
      var parent := NO_PARENT;
      if e in claimants {
        parent := PickDeepest(eps, claimants[e], depth);
      }
      after := after[i := after[i].(parent := parent)];
    }
  }
}

/** Runs of calls whose reads are carried out by the blocking read, late reports included: which lists the
    calls are handed, and what becomes of the authorised network. */
module ReadRuns {
  import opened CTypes
  import opened Fabric
  import opened Calls
  import opened Authorisation
  import opened ReadProtocol

  /** The k-th operation of a call is a read of this kind; `own` is the list the device has, if there is one. */
  datatype ReadOp = ReadOp(k: nat, kind: Kind, own: Option<Lists>)

  function OwnAcl(net: Network, node: U64): Option<Lists> {
    if node in net then Some(Lists(net[node].acl, [], [])) else None
  }

  function OwnBindings(net: Network, node: U64, ep: U16): Option<Lists> {
    if HasBindings(net, node, ep) then Some(Lists([], net[node].bindings[ep], [])) else None
  }

  function OwnKeyMap(net: Network, node: U64): Option<Lists> {
    if node in net then Some(Lists([], [], net[node].keyMap)) else None
  }

  /** The reads of an install, and the read that follows it when it succeeds. */
  function InstallReads(net: Network, env: Env, node: U64, next: ReadOp): seq<ReadOp> {
    if !env.keyStored || Reply(env, 0, node in net) != Ok then [] else
    [ReadOp(1, KeyMap, OwnKeyMap(net, node))] + if Reply(env, 2, node in net) == Ok then [next] else []
  }

  /** The reads a call carries out, in order. What it writes before a read leaves that read's list alone. */
  function Reads(net: Network, env: Env, c: Call): seq<ReadOp> {
    match c
    case CallCreateBinding(sw, swEp, light, lightEp) =>
      var from := SwitchEp(env, sw, swEp);
      if from.None? || OnOffEp(env, light, lightEp).None? then [] else
      [ReadOp(0, AclSubjects, OwnAcl(net, light))]
      + if ReadReply(env, 0, light in net) == Ok && Reply(env, 1, light in net) == Ok
        then [ReadOp(2, Bindings, OwnBindings(net, sw, from.value))] else []
    case CallDeleteBinding(sw, swEp, light, lightEp) =>
      var from := SwitchEp(env, sw, swEp);
      if from.None? then [] else
      [ReadOp(0, Bindings, OwnBindings(net, sw, from.value)), ReadOp(2, AclSubjects, OwnAcl(net, light))]
    case CallAddGroupMember(node, _) => InstallReads(net, env, node, ReadOp(3, AclEntries, OwnAcl(net, node)))
    case CallRemoveGroupMember(node, _) =>
      [ReadOp(1, KeyMap, OwnKeyMap(net, node)), ReadOp(3, AclEntries, OwnAcl(net, node))]
    case CallCreateGroupBinding(sw, swEp, _) =>
      var from := SwitchEp(env, sw, swEp);
      if from.None? then [] else InstallReads(net, env, sw, ReadOp(3, Bindings, OwnBindings(net, sw, from.value)))
    case CallDeleteGroupBinding(sw, swEp, _) =>
      var from := SwitchEp(env, sw, swEp);
      if from.None? then [] else [ReadOp(0, Bindings, OwnBindings(net, sw, from.value))]
    case _ => []
  }

  // ---- One read -------------------------------------------------------------------------------------

  /** The list the call goes on with when the read succeeds. */
  function Handed(env: Env, op: ReadOp): Option<Lists> {
    if op.k in env.handed then Some(env.handed[op.k]) else op.own
  }

  /** These actions carry out the read, with the answer and the list that the call meets. */
  ghost predicate Explains(s: State<Lists>, actions: seq<Action<Lists>>, t: State<Lists>, env: Env, op: ReadOp) {
    && OneCall(actions, op.kind) && Run(s, actions) == Some(t) && t.caller.Idle?
    && TrueTo(t, s.next, op.own)
    && t.caller.last == Some(ReadReply(env, op.k, op.own.Some?))
    && (t.caller.last == Some(Ok) ==> Some(Held(t, op.kind).GetOr(Lists([], [], []))) == Handed(env, op))
  }

  /** The read fails, or is handed the device's own list. */
  predicate SeesOwn(env: Env, op: ReadOp) {
    ReadReply(env, op.k, op.own.Some?) == Ok ==> op.own.Some? && Handed(env, op) == op.own
  }

  lemma PatientReadSeesOwn(s: State<Lists>, actions: seq<Action<Lists>>, t: State<Lists>, env: Env, op: ReadOp)
    requires Reachable(s) && s.inFlight == map[] && Explains(s, actions, t, env, op)
    ensures SeesOwn(env, op)
  {
    hide Run, Next, OneCall, Reachable;
    if t.caller.last == Some(Ok) { OwnListHanded(s, actions, op.kind, op.own); }
  }

  // ---- One call ---------------------------------------------------------------------------------------

  /** The same answers, with every read handed the device's own list. */
  function Own(env: Env): Env {
    env.(handed := map[])
  }

  lemma SameRead(env: Env, op: ReadOp)
    requires SeesOwn(env, op)
    ensures ReadReply(env, op.k, op.own.Some?) == ReadReply(Own(env), op.k, op.own.Some?)
    ensures ReadReply(env, op.k, op.own.Some?) == Ok ==> op.k !in env.handed || Some(env.handed[op.k]) == op.own
  {
  }

  lemma SameWrites(env: Env)
    ensures forall k: nat, present: bool :: Reply(env, k, present) == Reply(Own(env), k, present)
    ensures forall node: U64, ep: U16 :: SwitchEp(env, node, ep) == SwitchEp(Own(env), node, ep)
    ensures forall node: U64, ep: U16 :: OnOffEp(env, node, ep) == OnOffEp(Own(env), node, ep)
    ensures forall node: U64 :: AppEp(env, node) == AppEp(Own(env), node)
  {
  }

  /** What a call does that is handed the devices' own lists: the same as where no report is late. */
  lemma OwnReadsPerform(net: Network, env: Env, c: Call)
    requires forall op :: op in Reads(net, env, c) ==> SeesOwn(env, op)
    ensures Perform(net, env, c) == Perform(net, Own(env), c)
  {
    hide CreateBinding, DeleteBinding, AddGroupMember, RemoveGroupMember, CreateGroupBinding, DeleteGroupBinding;
    hide ResetNodeGroups, SwitchEp, OnOffEp, SeesOwn, InstallReads;
    SameWrites(env);
    match c
    case CallCreateBinding(sw, swEp, light, lightEp) => OwnCreate(net, env, sw, swEp, light, lightEp);
    case CallDeleteBinding(sw, swEp, light, lightEp) => OwnDelete(net, env, sw, swEp, light, lightEp);
    case CallAddGroupMember(node, g) => OwnAdd(net, env, node, g);
    case CallRemoveGroupMember(node, g) => OwnRemove(net, env, node, g);
    case CallCreateGroupBinding(sw, swEp, g) => OwnCreateGroup(net, env, sw, swEp, g);
    case CallDeleteGroupBinding(sw, swEp, g) => OwnDeleteGroup(net, env, sw, swEp, g);
    case CallResetNodeGroups(node) => OwnReset(net, env, node);
    case _ =>
  }

  lemma OwnCreate(net: Network, env: Env, sw: U64, swEp: U16, light: U64, lightEp: U16)
    requires forall op :: op in Reads(net, env, CallCreateBinding(sw, swEp, light, lightEp)) ==> SeesOwn(env, op)
    ensures CreateBinding(net, env, sw, swEp, light, lightEp) == CreateBinding(net, Own(env), sw, swEp, light, lightEp)
  {
    hide SwitchEp, OnOffEp, SeesOwn, Reply, ReadReply;
    hide WithTarget, ReadTargets, WriteTargets, GrantList, OperateSubjects, WriteAcl;
    hide AddOnce;
    var from := SwitchEp(env, sw, swEp);
    SameWrites(env);
    if from.Some? && OnOffEp(env, light, lightEp).Some? {
      var ops := Reads(net, env, CallCreateBinding(sw, swEp, light, lightEp));
      assert ops[0] in ops;
      SameRead(env, ops[0]);
      if |ops| == 2 {
        assert ops[1] in ops;
        SameRead(env, ops[1]);
      }
    }
  }

  lemma OwnDelete(net: Network, env: Env, sw: U64, swEp: U16, light: U64, lightEp: U16)
    requires forall op :: op in Reads(net, env, CallDeleteBinding(sw, swEp, light, lightEp)) ==> SeesOwn(env, op)
    ensures DeleteBinding(net, env, sw, swEp, light, lightEp) == DeleteBinding(net, Own(env), sw, swEp, light, lightEp)
  {
    hide SwitchEp, OnOffEp, SeesOwn, Reply, ReadReply;
    hide WithoutTarget, ReadTargets, WriteTargets, GrantList, OperateSubjects;
    hide Drop, WriteAcl, ApplyAll;
    var from := SwitchEp(env, sw, swEp);
    SameWrites(env);
    if from.Some? {
      var ops := Reads(net, env, CallDeleteBinding(sw, swEp, light, lightEp));
      assert ops[0] in ops && ops[1] in ops;
      SameRead(env, ops[0]);
      SameRead(env, ops[1]);
      UnbindKeepsAcl(net, env, sw, from.value, light, OnOffEp(env, light, lightEp).GetOr(0));
      UnbindKeepsAcl(net, Own(env), sw, from.value, light, OnOffEp(env, light, lightEp).GetOr(0));
    }
  }

  lemma OwnInstall(net: Network, env: Env, node: U64, g: U16, next: ReadOp)
    requires forall op :: op in InstallReads(net, env, node, next) ==> SeesOwn(env, op)
    ensures InstallKey(net, env, node, g) == InstallKey(net, Own(env), node, g)
    ensures InstallKey(net, env, node, g).err == Ok ==> SeesOwn(env, next)
  {
    hide SeesOwn, Reply, ReadReply, ReadKeyMap, WriteKeyMap, WithMapping;
    SameWrites(env);
    var ops := InstallReads(net, env, node, next);
    if ops != [] {
      assert ops[0] in ops;
      SameRead(env, ops[0]);
      if |ops| == 2 { assert ops[1] in ops; }
    }
  }

  lemma OwnAdd(net: Network, env: Env, node: U64, g: U16)
    requires forall op :: op in Reads(net, env, CallAddGroupMember(node, g)) ==> SeesOwn(env, op)
    ensures AddGroupMember(net, env, node, g) == AddGroupMember(net, Own(env), node, g)
  {
    hide SeesOwn, Reply, ReadReply, InstallKey, InstallReads, AdmitList, WriteAcl, ReadAcl, AppEp;
    var op := ReadOp(3, AclEntries, OwnAcl(net, node));
    SameWrites(env);
    OwnInstall(net, env, node, g, op);
    if InstallKey(net, env, node, g).err == Ok { SameRead(env, op); }
  }

  lemma OwnRemove(net: Network, env: Env, node: U64, g: U16)
    requires forall op :: op in Reads(net, env, CallRemoveGroupMember(node, g)) ==> SeesOwn(env, op)
    ensures RemoveGroupMember(net, env, node, g) == RemoveGroupMember(net, Own(env), node, g)
  {
    hide SeesOwn, Reply, ReadReply, ReadKeyMap, WriteKeyMap, WithoutMapping, ExpelList, WriteAcl, ReadAcl, AppEp;
    var ops := Reads(net, env, CallRemoveGroupMember(node, g));
    assert ops[0] in ops && ops[1] in ops;
    SameWrites(env);
    SameRead(env, ops[0]);
    SameRead(env, ops[1]);
  }

  lemma OwnCreateGroup(net: Network, env: Env, sw: U64, swEp: U16, g: U16)
    requires forall op :: op in Reads(net, env, CallCreateGroupBinding(sw, swEp, g)) ==> SeesOwn(env, op)
    ensures CreateGroupBinding(net, env, sw, swEp, g) == CreateGroupBinding(net, Own(env), sw, swEp, g)
  {
    hide SeesOwn, Reply, ReadReply, InstallKey, InstallReads, SwitchEp, WithGroupTarget, ReadTargets, WriteTargets;
    var from := SwitchEp(env, sw, swEp);
    SameWrites(env);
    if from.Some? {
      var op := ReadOp(3, Bindings, OwnBindings(net, sw, from.value));
      OwnInstall(net, env, sw, g, op);
      if InstallKey(net, env, sw, g).err == Ok { SameRead(env, op); }
    }
  }

  lemma OwnDeleteGroup(net: Network, env: Env, sw: U64, swEp: U16, g: U16)
    requires forall op :: op in Reads(net, env, CallDeleteGroupBinding(sw, swEp, g)) ==> SeesOwn(env, op)
    ensures DeleteGroupBinding(net, env, sw, swEp, g) == DeleteGroupBinding(net, Own(env), sw, swEp, g)
  {
    hide SeesOwn, Reply, ReadReply, SwitchEp, WithoutGroupTarget, ReadTargets, WriteTargets;
    SameWrites(env);
    if SwitchEp(env, sw, swEp).Some? {
      var ops := Reads(net, env, CallDeleteGroupBinding(sw, swEp, g));
      assert ops[0] in ops;
      SameRead(env, ops[0]);
    }
  }

  lemma {:induction false} OwnDrops(net: Network, env: Env, node: U64, n: U16)
    ensures DropKeysets(net, env, node, n) == DropKeysets(net, Own(env), node, n)
  {
    hide Reply;
    SameWrites(env);
    if n > 0 { OwnDrops(net, env, node, n - 1); }
  }

  lemma OwnReset(net: Network, env: Env, node: U64)
    ensures ResetNodeGroups(net, env, node) == ResetNodeGroups(net, Own(env), node)
  {
    hide Reply, AppEp, DropKeysets;
    SameWrites(env);
    OwnDrops(net, env, node, MAX_KEYSET_SCAN);
  }

  // ---- Runs -------------------------------------------------------------------------------------------

  datatype Query = Query(env: Env, op: ReadOp)

  /** The reads of one event. */
  function EventReads(net: Network, e: Event): seq<Query> {
    var ops := Reads(net, e.env, e.call);
    seq(|ops|, i requires 0 <= i < |ops| => Query(e.env, ops[i]))
  }

  /** The reads of a whole run, in order. */
  function RunReads(net: Network, run: seq<Event>): seq<Query> {
    if run == [] then [] else
    var n := |run| - 1;
    RunReads(net, run[..n]) + EventReads(ApplyAll(net, RunSteps(net, run[..n])), run[n])
  }

  /** A run of the read protocol from the start that carries out these reads one after another, the i-th
      entered in states[i]. */
  ghost predicate Carries(queries: seq<Query>, states: seq<State<Lists>>, parts: seq<seq<Action<Lists>>>) {
    && |states| == |queries| + 1 && |parts| == |queries| && states[0] == Init()
    && forall i :: 0 <= i < |queries| ==> Explains(states[i], parts[i], states[i + 1], queries[i].env, queries[i].op)
  }

  /** No read is entered while an earlier one can still call back. */
  ghost predicate Waits(states: seq<State<Lists>>) {
    forall i :: 0 <= i < |states| - 1 ==> states[i].inFlight == map[]
  }

  lemma {:induction false} CarriedIsReachable(queries: seq<Query>, states: seq<State<Lists>>,
                                              parts: seq<seq<Action<Lists>>>, i: nat)
    requires Carries(queries, states, parts) && i < |states|
    ensures Reachable(states[i])
  {
    hide Next;
    if i == 0 {
      var none: seq<Action<Lists>> := [];
      assert Run(Init(), none) == Some(states[0]);
    } else {
      CarriedIsReachable(queries, states, parts, i - 1);
      var before: seq<Action<Lists>> :| Run(Init(), before) == Some(states[i - 1]);
      assert Explains(states[i - 1], parts[i - 1], states[i], queries[i - 1].env, queries[i - 1].op);
      RunSplit(Init(), before, parts[i - 1]);
    }
  }

  lemma PatientReadsSeeOwn(queries: seq<Query>, states: seq<State<Lists>>, parts: seq<seq<Action<Lists>>>, i: nat)
    requires Carries(queries, states, parts) && Waits(states) && i < |queries|
    ensures SeesOwn(queries[i].env, queries[i].op)
  {
    hide Explains, SeesOwn, Reachable;
    CarriedIsReachable(queries, states, parts, i);
    PatientReadSeesOwn(states[i], parts[i], states[i + 1], queries[i].env, queries[i].op);
  }

  function OwnEvents(run: seq<Event>): (r: seq<Event>)
    ensures |r| == |run| && forall i :: 0 <= i < |run| ==> r[i] == Event(run[i].call, Own(run[i].env))
  {
    seq(|run|, i requires 0 <= i < |run| => Event(run[i].call, Own(run[i].env)))
  }

  lemma {:induction false} OwnReadsRun(net: Network, run: seq<Event>)
    requires forall a :: a in RunReads(net, run) ==> SeesOwn(a.env, a.op)
    ensures RunSteps(net, run) == RunSteps(net, OwnEvents(run))
  {
    hide Perform, Reads, SeesOwn, ApplyAll, Own;
    if run != [] {
      var n := |run| - 1;
      OwnReadsRun(net, run[..n]);
      assert OwnEvents(run)[..n] == OwnEvents(run[..n]);
      var mid := ApplyAll(net, RunSteps(net, run[..n]));
      var ops, asked := Reads(mid, run[n].env, run[n].call), EventReads(mid, run[n]);
      forall op | op in ops ensures SeesOwn(run[n].env, op) {
        var i :| 0 <= i < |ops| && ops[i] == op;
        assert asked[i] in asked && asked[i] in RunReads(net, run);
      }
      OwnReadsPerform(mid, run[n].env, run[n].call);
    }
  }

  /** Where every read is entered after the earlier ones have ended, whatever timed out before, the run
      keeps the network authorised at every point exactly when each delete_binding and each reset_acl is
      safe where it starts. */
  lemma PatientRunsAreAuthorisedIff(net: Network, run: seq<Event>, states: seq<State<Lists>>,
                                    parts: seq<seq<Action<Lists>>>)
    requires Authorised(net) && Carries(RunReads(net, run), states, parts) && Waits(states)
    ensures Throughout(net, RunSteps(net, run)) <==> OwnSafeRun(net, OwnEvents(run))
  {
    hide Authorised, Throughout, OwnSafeRun, Carries, Waits, SeesOwn, RunSteps;
    var queries := RunReads(net, run);
    assert |states| == |queries| + 1 && |parts| == |queries| by { Lengths(queries, states, parts); }
    forall a | a in queries ensures SeesOwn(a.env, a.op) {
      var i :| 0 <= i < |queries| && queries[i] == a;
      PatientReadsSeeOwn(queries, states, parts, i);
    }
    OwnReadsRun(net, run);
    OwnRunsAreAuthorisedIff(net, OwnEvents(run));
  }

  lemma Lengths(queries: seq<Query>, states: seq<State<Lists>>, parts: seq<seq<Action<Lists>>>)
    requires Carries(queries, states, parts)
    ensures |states| == |queries| + 1 && |parts| == |queries|
  {
  }

  // ---- A run in which a late report strands a switch ----------------------------------------------------

  /** A read that gets no answer in time. */
  lemma TimesOut(s: State<Lists>, env: Env, op: ReadOp) returns (t: State<Lists>)
    requires Sound(s) && s.caller.Idle? && ReadReply(env, op.k, op.own.Some?) == Timeout
    ensures Explains(s, Asking(op.kind) + [Expire], t, env, op)
    ensures t == Asked(s, op.kind).(caller := Idle(Some(Timeout))) && Sound(t)
  {
    AskingRuns(s, op.kind);
    GoOn(s, Asking(op.kind), Expire, Asking(op.kind) + [Expire]);
    t := Asked(s, op.kind).(caller := Idle(Some(Timeout)));
    assert s.next !in s.reports && Reports(t, s.next) == [];
  }

  /** A read answered by the late report of another read of its kind. */
  lemma AnsweredLate(s: State<Lists>, late: nat, data: Lists, env: Env, op: ReadOp) returns (t: State<Lists>)
    requires Sound(s) && s.caller.Idle? && s.open.None? && late in s.inFlight && s.inFlight[late] == op.kind
    requires ReadReply(env, op.k, op.own.Some?) == Ok && Handed(env, op) == Some(data)
    ensures Explains(s, Intrusion(s, op.kind, late, data), t, env, op) && Sound(t)
  {
    LateReadIntrudes(s, op.kind, late, data);
    t := Run(s, Intrusion(s, op.kind, late, data)).value;
    AskingRuns(s, op.kind);
    FinishingRuns(Asked(s, op.kind), late, data);
    RunSplit(s, Asking(op.kind), Finishing(Asked(s, op.kind), late, data));
    assert Finishing(Asked(s, op.kind), late, data) == Finishing(s, late, data);
  }

  /** Switch 1 is bound to light 3, which grants it; light 2 grants nobody. */
  function Fabric4(): Network {
    map[
      1 := Device([], map[1 := [BindingRaw(Some(3), None, Some(1), Some(ONOFF))]], [], {}, {}),
      2 := Device([AclRaw(Some(ADMINISTER), Some(AUTH_CASE), Some([CONTROLLER]))], map[], [], {}, {}),
      3 := Device([AclRaw(Some(OPERATE), Some(AUTH_CASE), Some([1]))], map[], [], {}, {}),
      4 := Device([], map[1 := []], [], {}, {})]
  }

  /** Switch 4 is to be bound to light 2, whose ACL read times out, and then to light 3, whose ACL read is
      answered by the list of light 2. */
  function TwoBindings(): seq<Event> {
    [Event(CallCreateBinding(4, 1, 2, 1), Env([Timeout], [], false, map[])),
     Event(CallCreateBinding(4, 1, 3, 1), Env([Ok, Ok, Timeout], [], false, map[0 := OwnAcl(Fabric4(), 2).value]))]
  }

  lemma TwoBindingsRead()
    ensures var net, run := Fabric4(), TwoBindings();
      RunReads(net, run) == [
        Query(run[0].env, ReadOp(0, AclSubjects, OwnAcl(net, 2))),
        Query(run[1].env, ReadOp(0, AclSubjects, OwnAcl(net, 3))),
        Query(run[1].env, ReadOp(2, Bindings, OwnBindings(net, 4, 1)))]
    ensures RunSteps(Fabric4(), TwoBindings()[..1]) == []
  {
    hide GrantList, WriteAcl, OperateSubjects;
    var net, run := Fabric4(), TwoBindings();
    assert run[..1] == [run[0]] && run[..1][..0] == [];
    assert RunSteps(net, run[..1]) == [];
    assert ApplyAll(net, []) == net;
    assert EventReads(net, run[0]) == [Query(run[0].env, ReadOp(0, AclSubjects, OwnAcl(net, 2)))];
    assert EventReads(net, run[1]) == [
        Query(run[1].env, ReadOp(0, AclSubjects, OwnAcl(net, 3))),
        Query(run[1].env, ReadOp(2, Bindings, OwnBindings(net, 4, 1)))];
    assert RunReads(net, run[..1]) == EventReads(net, run[0]);
  }

  /** Light 2's subjects are written to light 3, and switch 1 is left without its grant. */
  lemma LateListStrands()
    ensures Authorised(Fabric4()) && !Throughout(Fabric4(), RunSteps(Fabric4(), TwoBindings()))
  {
    hide Throughout, RunSteps, CreateBinding;
    var net, run := Fabric4(), TwoBindings();
    var list, target := net[1].bindings[1], Target(3, 1, ONOFF, 0, false);
    assert ReadTarget(list[0]) == Some(target);
    forall sw: U64, ep: U16, t: Target | Bound(net, sw, ep, t) ensures Grants(net, t.node, sw) {
      var i :| 0 <= i < |net[sw].bindings[ep]| && ReadTarget(net[sw].bindings[ep][i]) == Some(t);
      assert ReadEntry(net[3].acl[0]) == AclEntry(OPERATE, AUTH_CASE, [1]);
      assert 1 in ReadEntry(net[3].acl[0]).subjects;
    }
    hide Authorised;
    assert Bound(net, 1, 1, target);
    assert 1 !in OperateSubjects(net[2].acl);
    TwoBindingsRead();
    assert ApplyAll(net, []) == net;
    assert !CreateIsSafe(net, run[1].env, 4, 1, 3);
    assert !Safe(net, run[1]);
    RunsAreAuthorisedIff(net, run);
  }

  /** The blocking read can carry out this very run: the second call enters before the first read ended. */
  lemma LateReportStrands() returns (states: seq<State<Lists>>, parts: seq<seq<Action<Lists>>>)
    ensures Carries(RunReads(Fabric4(), TwoBindings()), states, parts) && !Waits(states)
    ensures Authorised(Fabric4()) && !Throughout(Fabric4(), RunSteps(Fabric4(), TwoBindings()))
  {
    hide Explains, RunReads, Throughout, Authorised, RunSteps;
    var net, run := Fabric4(), TwoBindings();
    var queries := RunReads(net, run);
    TwoBindingsRead();
    LateListStrands();
    var s0: State<Lists> := Init();
    var s1 := TimesOut(s0, queries[0].env, queries[0].op);
    var s2 := AnsweredLate(s1, 0, OwnAcl(net, 2).value, queries[1].env, queries[1].op);
    var s3 := TimesOut(s2, queries[2].env, queries[2].op);
    states := [s0, s1, s2, s3];
    parts := [Asking(AclSubjects) + [Expire],
              Intrusion(s1, AclSubjects, 0, OwnAcl(net, 2).value),
              Asking(Bindings) + [Expire]];
    assert 0 in s1.inFlight && states[1] == s1;
  }
}

/** The blocking attribute read of matter_controller.cpp: one caller at a time, a binary semaphore, a
    shared success flag, and callbacks of the stack's thread that may belong to an earlier read. */
module ReadProtocol {
  import opened CTypes

  /** The snapshot a read's callback fills. */
  datatype Kind = Bindings | AclSubjects | AclEntries | KeyMap | GroupTable

  /** What a snapshot holds, and the read whose callback last touched it; None when only cleared. */
  datatype Snapshot<T> = Snapshot(writer: nat, value: Option<T>)

  datatype Caller =
    | Idle(last: Option<Err>)
    | Entered(kind: Kind)
    | Cleared(kind: Kind)
    | Drained(kind: Kind)
    | Waiting(kind: Kind, id: nat)

  /** `open` is the read whose report callback is running; `reports` remembers what each read reported. */
  datatype State<T> = State(
    created: bool, signal: bool, readOk: bool,
    snaps: map<Kind, Snapshot<T>>,
    inFlight: map<nat, Kind>, open: Option<nat>, next: nat,
    caller: Caller,
    reports: map<nat, seq<Option<T>>>)

  datatype Action<T> =
    // the caller
    | Enter(kind: Kind)
    | Clear
    | Drain
    | Send
    | Abort
    | Wake
    | Expire
    // the stack's thread
    | Open(id: nat)
    | Close(data: Option<T>)
    | Done(id: nat)
    | Lose(id: nat)

  function Init<T>(): State<T> {
    State(false, false, false, map[], map[], None, 0, Idle(None), map[])
  }

  function Reports<T>(s: State<T>, id: nat): seq<Option<T>> {
    if id in s.reports then s.reports[id] else []
  }

  /** One step, or None where the action is not possible. */
  function Next<T>(s: State<T>, a: Action<T>): Option<State<T>> {
    match a
    case Enter(kind) =>
      if s.caller.Idle? then Some(s.(caller := Entered(kind))) else None
    case Clear =>
      if s.caller.Entered? then Some(s.(created := true, readOk := false, caller := Cleared(s.caller.kind))) else None
    case Drain =>
      if s.caller.Cleared? then Some(s.(signal := false, caller := Drained(s.caller.kind))) else None
    case Send =>
      if s.caller.Drained? then
        Some(s.(inFlight := s.inFlight[s.next := s.caller.kind], next := s.next + 1,
                caller := Waiting(s.caller.kind, s.next)))
      else None
    case Abort =>
      if s.caller.Drained? || (s.caller.Entered? && !s.created) then Some(s.(caller := Idle(Some(NoMem)))) else None
    case Wake =>
      if s.caller.Waiting? && s.signal then
        Some(s.(signal := false, caller := Idle(Some(if s.readOk then Ok else Fail))))
      else None
    case Expire =>
      if s.caller.Waiting? && !s.signal then Some(s.(caller := Idle(Some(Timeout)))) else None
    case Open(id) =>
      if id in s.inFlight && s.open.None? then
        Some(s.(snaps := s.snaps[s.inFlight[id] := Snapshot(id, None)], open := Some(id)))
      else None
    case Close(data) =>
      if s.open.Some? && s.open.value in s.inFlight then
        var id := s.open.value;
        Some(s.(snaps := if data.Some? then s.snaps[s.inFlight[id] := Snapshot(id, data)] else s.snaps,
                readOk := s.readOk || data.Some?, open := None,
                reports := s.reports[id := Reports(s, id) + [data]]))
      else None
    case Done(id) =>
      if id in s.inFlight && s.open.None? then Some(s.(signal := true, inFlight := s.inFlight - {id})) else None
    case Lose(id) =>
      if id in s.inFlight && s.open.None? then Some(s.(inFlight := s.inFlight - {id})) else None
  }

  function Run<T>(s: State<T>, actions: seq<Action<T>>): Option<State<T>> {
    if actions == [] then Some(s) else
    var before := Run(s, actions[..|actions| - 1]);
    if before.None? then None else Next(before.value, actions[|actions| - 1])
  }

  // ---- What one call is ----------------------------------------------------------------------------

  /** The actions of one call and of everything beside it, up to the entry of the next. */
  ghost predicate OneCall<T>(actions: seq<Action<T>>, kind: Kind) {
    |actions| > 0 && actions[0] == Enter(kind) && forall i :: 1 <= i < |actions| ==> !actions[i].Enter?
  }

  /** The call's snapshot is what read `id` reported last, and no callback is left that could change it. */
  ghost predicate Fresh<T>(t: State<T>, kind: Kind, id: nat) {
    && t.inFlight == map[] && t.open.None?
    && Reports(t, id) != [] && kind in t.snaps
    && t.snaps[kind] == Snapshot(id, Reports(t, id)[|Reports(t, id)| - 1])
  }

  ghost predicate Reachable<T(!new)>(s: State<T>) {
    exists actions: seq<Action<T>> :: Run(Init(), actions) == Some(s)
  }

  /** Every way of carrying out a call entered in s that returns Ok leaves a fresh snapshot. */
  ghost predicate AlwaysFresh<T(!new)>(s: State<T>, kind: Kind) {
    forall actions: seq<Action<T>> ::
      OneCall(actions, kind) && Run(s, actions).Some? && Run(s, actions).value.caller == Idle(Some(Ok))
      ==> Fresh(Run(s, actions).value, kind, s.next)
  }

  // ---- The list a call is handed ------------------------------------------------------------------------

  /** What the snapshot holds; None when it was never filled or only cleared. */
  function Held<T>(t: State<T>, kind: Kind): Option<T> {
    if kind in t.snaps then t.snaps[kind].value else None
  }

  /** Whatever read `id` has reported is the device's own list; a device that is not there reports nothing. */
  ghost predicate TrueTo<T>(t: State<T>, id: nat, own: Option<T>) {
    forall i :: 0 <= i < |Reports(t, id)| ==> own.Some? && Reports(t, id)[i] == own
  }

  /** Every way of carrying out a call entered in s that returns Ok hands over the device's own list,
      whatever that is. */
  ghost predicate HandsOnlyOwn<T(!new)>(s: State<T>, kind: Kind) {
    forall actions: seq<Action<T>>, own: T ::
      OneCall(actions, kind) && Run(s, actions).Some? && Run(s, actions).value.caller == Idle(Some(Ok))
      && TrueTo(Run(s, actions).value, s.next, Some(own))
      ==> Held(Run(s, actions).value, kind) == Some(own)
  }

  // ---- Invariant of every run ------------------------------------------------------------------------

  ghost predicate Sound<T>(s: State<T>) {
    && (forall id :: id in s.inFlight ==> id < s.next)
    && (forall id :: id in s.reports ==> id < s.next)
    && (forall k :: k in s.snaps ==> s.snaps[k].writer < s.next)
    && (s.open.Some? ==> s.open.value in s.inFlight)
  }

  lemma SoundNext<T>(s: State<T>, a: Action<T>)
    requires Sound(s) && Next(s, a).Some?
    ensures Sound(Next(s, a).value)
  {
  }

  lemma {:induction false} SoundRun<T>(actions: seq<Action<T>>)
    requires Run(Init(), actions).Some?
    ensures Sound(Run(Init(), actions).value)
  {
    if actions != [] {
      SoundRun(actions[..|actions| - 1]);
      SoundNext(Run(Init(), actions[..|actions| - 1]).value, actions[|actions| - 1]);
    }
  }

  // ---- A call entered with nothing in flight -----------------------------------------------------------

  ghost predicate Whole<T>(reports: seq<Option<T>>) {
    exists i :: 0 <= i < |reports| && reports[i].Some?
  }

  /** While read n is the only one that can call back: the flag tells whether it has reported a list. */
  ghost predicate Own<T>(t: State<T>, kind: Kind, n: nat) {
    && t.next == n + 1
    && (forall id :: id in t.inFlight ==> id == n && t.inFlight[id] == kind)
    && (t.readOk <==> Whole(Reports(t, n)))
    && (t.open.Some? ==> kind in t.snaps && t.snaps[kind] == Snapshot(n, None))
    && (t.open.None? && Reports(t, n) != [] ==>
          kind in t.snaps && t.snaps[kind] == Snapshot(n, Reports(t, n)[|Reports(t, n)| - 1]))
  }

  ghost predicate InCall<T>(t: State<T>, kind: Kind, n: nat) {
    && Sound(t)
    && match t.caller
       case Entered(k) => k == kind && t.inFlight == map[] && t.next == n
       case Cleared(k) => k == kind && t.inFlight == map[] && t.next == n && !t.readOk
       case Drained(k) => k == kind && t.inFlight == map[] && t.next == n && !t.readOk && !t.signal
       case Waiting(k, id) => k == kind && id == n && Own(t, kind, n) && (t.signal ==> t.inFlight == map[])
       case Idle(last) =>
         match last
         case Some(Ok) => Own(t, kind, n) && Whole(Reports(t, n)) && t.inFlight == map[]
         case Some(Fail) => Own(t, kind, n) && !Whole(Reports(t, n)) && t.inFlight == map[]
         case Some(Timeout) => true
         case Some(NoMem) => true
         case _ => false
  }

  lemma OwnReport<T>(t: State<T>, a: Action<T>, kind: Kind, n: nat)
    requires Sound(t) && Own(t, kind, n) && (a.Open? || a.Close? || a.Done? || a.Lose?) && Next(t, a).Some?
    ensures Own(Next(t, a).value, kind, n)
  {
    var u := Next(t, a).value;
    if a.Close? {
      var was := Reports(t, n);
      assert Reports(u, n) == was + [a.data];
      if Whole(was) {
        var i :| 0 <= i < |was| && was[i].Some?;
        assert Reports(u, n)[i].Some?;
      }
      if a.data.Some? {
        assert Reports(u, n)[|was|].Some?;
      }
    } else {
      assert Reports(u, n) == Reports(t, n);
    }
  }

  lemma InCallNext<T>(t: State<T>, a: Action<T>, kind: Kind, n: nat)
    requires InCall(t, kind, n) && !a.Enter? && Next(t, a).Some?
    ensures InCall(Next(t, a).value, kind, n)
  {
    SoundNext(t, a);
    if t.caller.Waiting? && (a.Open? || a.Close? || a.Done? || a.Lose?) {
      OwnReport(t, a, kind, n);
    }
  }

  lemma {:induction false} InCallRun<T>(s: State<T>, actions: seq<Action<T>>, kind: Kind)
    requires Sound(s) && s.inFlight == map[] && OneCall(actions, kind) && Run(s, actions).Some?
    ensures InCall(Run(s, actions).value, kind, s.next)
  {
    var n := |actions| - 1;
    if n == 0 {
      assert Run(s, []) == Some(s);
      assert actions[..n] == [];
      SoundNext(s, actions[0]);
    } else {
      InCallRun(s, actions[..n], kind);
      InCallNext(Run(s, actions[..n]).value, actions[n], kind, s.next);
    }
  }

  /** The outcome of a call entered with no earlier read outstanding: after a signal it is decided by the
      call's own reports alone, and a snapshot handed to the caller is its own. */
  lemma CallOutcome<T>(before: seq<Action<T>>, actions: seq<Action<T>>, kind: Kind)
    requires Run(Init(), before).Some? && OneCall(actions, kind)
    requires Run(Init(), before).value.inFlight == map[]
    requires Run(Run(Init(), before).value, actions).Some?
    ensures var s, t := Run(Init(), before).value, Run(Run(Init(), before).value, actions).value;
      t.caller.Idle? ==>
        && t.caller.last in {Some(Ok), Some(Fail), Some(Timeout), Some(NoMem)}
        && (t.caller.last == Some(Ok) ==> Fresh(t, kind, s.next) && Whole(Reports(t, s.next)))
        && (t.caller.last == Some(Fail) ==> !Whole(Reports(t, s.next)))
  {
    var s := Run(Init(), before).value;
    SoundRun(before);
    InCallRun(s, actions, kind);
  }

  // ---- A call entered while an earlier read can still report -----------------------------------------------

  lemma GoOn<T>(s: State<T>, actions: seq<Action<T>>, a: Action<T>, longer: seq<Action<T>>)
    requires Run(s, actions).Some? && longer == actions + [a]
    ensures Run(s, longer) == Next(Run(s, actions).value, a)
  {
    assert longer[..|actions|] == actions;
  }

  lemma {:induction false} RunSplit<T>(s: State<T>, a: seq<Action<T>>, b: seq<Action<T>>)
    requires Run(s, a).Some?
    ensures Run(s, a + b) == Run(Run(s, a).value, b)
  {
    if b == [] {
      assert a + b == a;
    } else {
      var n := |b| - 1;
      RunSplit(s, a, b[..n]);
      assert (a + b)[..|a| + n] == a + b[..n];
    }
  }

  /** What a call does before it waits. */
  function Asking<T>(kind: Kind): seq<Action<T>> {
    [Enter(kind), Clear, Drain, Send]
  }

  function Asked<T>(s: State<T>, kind: Kind): State<T> {
    s.(created := true, readOk := false, signal := false, next := s.next + 1,
       inFlight := s.inFlight[s.next := kind], caller := Waiting(kind, s.next))
  }

  lemma AskingRuns<T>(s: State<T>, kind: Kind)
    requires s.caller.Idle?
    ensures Run(s, Asking(kind)) == Some(Asked(s, kind))
  {
    GoOn(s, [], Enter(kind), [Enter(kind)]);
    GoOn(s, [Enter(kind)], Clear, [Enter(kind), Clear]);
    GoOn(s, [Enter(kind), Clear], Drain, [Enter(kind), Clear, Drain]);
    GoOn(s, [Enter(kind), Clear, Drain], Send, Asking(kind));
  }

  /** A read whose report is being delivered completes, and the caller wakes. */
  function Closing<T>(id: nat, data: T): seq<Action<T>> {
    [Close(Some(data)), Done(id), Wake]
  }

  function Closed<T>(s: State<T>, id: nat, data: T): State<T>
    requires id in s.inFlight
  {
    s.(signal := false, readOk := true, open := None, caller := Idle(Some(Ok)),
       snaps := s.snaps[s.inFlight[id] := Snapshot(id, Some(data))],
       inFlight := s.inFlight - {id}, reports := s.reports[id := Reports(s, id) + [Some(data)]])
  }

  lemma ClosingRuns<T>(s: State<T>, id: nat, data: T)
    requires s.caller.Waiting? && id in s.inFlight && s.open == Some(id)
    ensures Run(s, Closing(id, data)) == Some(Closed(s, id, data))
  {
    assert Run(s, []) == Some(s);
    hide Run;
    GoOn(s, [], Close(Some(data)), [Close(Some(data))]);
    GoOn(s, [Close(Some(data))], Done(id), [Close(Some(data)), Done(id)]);
    GoOn(s, [Close(Some(data)), Done(id)], Wake, Closing(id, data));
  }

  /** A read in flight reports a list and completes. */
  function Finishing<T>(s: State<T>, id: nat, data: T): seq<Action<T>> {
    if s.open.None? then [Open(id)] + Closing(id, data) else Closing(id, data)
  }

  lemma FinishingRuns<T>(s: State<T>, id: nat, data: T)
    requires s.caller.Waiting? && id in s.inFlight && (s.open.None? || s.open == Some(id))
    ensures Run(s, Finishing(s, id, data)) == Some(Closed(s, id, data))
  {
    if s.open.None? {
      assert Run(s, []) == Some(s);
      hide Run;
      GoOn(s, [], Open(id), [Open(id)]);
      var u := Next(s, Open(id)).value;
      ClosingRuns(u, id, data);
      RunSplit(s, [Open(id)], Closing(id, data));
      assert u.snaps[s.inFlight[id] := Snapshot(id, Some(data))] == s.snaps[s.inFlight[id] := Snapshot(id, Some(data))];
    } else {
      ClosingRuns(s, id, data);
    }
  }

  /** A call that asks while `late` can still report, and is woken by it. */
  function Intrusion<T>(s: State<T>, kind: Kind, late: nat, data: T): seq<Action<T>> {
    Asking(kind) + Finishing(s, late, data)
  }

  lemma LateReadIntrudes<T>(s: State<T>, kind: Kind, late: nat, data: T)
    requires Sound(s) && s.caller.Idle? && late in s.inFlight && (s.open.None? || s.open == Some(late))
    ensures OneCall(Intrusion(s, kind, late, data), kind)
    ensures var r := Run(s, Intrusion(s, kind, late, data));
      && r.Some? && r.value.caller == Idle(Some(Ok))
      && Reports(r.value, s.next) == []
      && (kind in r.value.snaps ==> r.value.snaps[kind].writer != s.next)
      && Held(r.value, s.inFlight[late]) == Some(data)
  {
    var u := Asked(s, kind);
    AskingRuns(s, kind);
    FinishingRuns(u, late, data);
    assert Finishing(u, late, data) == Finishing(s, late, data);
    RunSplit(s, Asking(kind), Finishing(u, late, data));
  }

  /** A whole such run: the first read times out, and its report makes the second call return Ok. */
  lemma StaleReport<T>(kind: Kind, data: T)
    ensures var run := Asking(kind) + [Expire] + Asking(kind) + [Open(0), Close(Some(data)), Done(0), Wake];
      && Run(Init<T>(), run).Some?
      && Run(Init<T>(), run).value.caller == Idle(Some(Ok))
      && kind in Run(Init<T>(), run).value.snaps && Run(Init<T>(), run).value.snaps[kind].writer == 0
      && Reports(Run(Init<T>(), run).value, 1) == []
  {
    var s0: State<T> := Init();
    var late: seq<Action<T>> := Asking(kind) + [Expire];
    AskingRuns(s0, kind);
    GoOn(s0, Asking(kind), Expire, late);
    var s := Run(s0, late).value;
    AskingRuns(s, kind);
    FinishingRuns(Asked(s, kind), 0, data);
    RunSplit(s0, late, Asking(kind));
    RunSplit(s0, late + Asking(kind), Finishing(Asked(s, kind), 0, data));
    assert late + Asking(kind) + [Open(0), Close(Some(data)), Done(0), Wake]
        == late + Asking(kind) + Finishing(Asked(s, kind), 0, data);
  }

  /** The exact condition, for every kind of read and every state any run can reach between two calls:
      a returned Ok vouches for the snapshot if and only if no earlier read can still call back. */
  lemma FreshIff<T(!new)>(s: State<T>, kind: Kind, data: T)
    requires Reachable(s) && s.caller.Idle?
    ensures AlwaysFresh(s, kind) <==> s.inFlight == map[]
  {
    var before: seq<Action<T>> :| Run(Init(), before) == Some(s);
    SoundRun(before);
    if s.inFlight == map[] {
      forall actions: seq<Action<T>> |
        OneCall(actions, kind) && Run(s, actions).Some? && Run(s, actions).value.caller == Idle(Some(Ok))
        ensures Fresh(Run(s, actions).value, kind, s.next)
      {
        CallOutcome(before, actions, kind);
      }
    } else {
      var late :| late in s.inFlight;
      if s.open.Some? { late := s.open.value; }
      LateReadIntrudes(s, kind, late, data);
      var r := Run(s, Intrusion(s, kind, late, data));
      assert !Fresh(r.value, kind, s.next);
    }
  }

  /** With nothing in flight at its entry a call that returns Ok was answered, and by its own device. */
  lemma OwnListHanded<T(!new)>(s: State<T>, actions: seq<Action<T>>, kind: Kind, own: Option<T>)
    requires Reachable(s) && s.inFlight == map[] && OneCall(actions, kind) && Run(s, actions).Some?
    requires Run(s, actions).value.caller == Idle(Some(Ok)) && TrueTo(Run(s, actions).value, s.next, own)
    ensures own.Some? && Held(Run(s, actions).value, kind) == own
  {
    hide Run, Next;
    var before: seq<Action<T>> :| Run(Init(), before) == Some(s);
    CallOutcome(before, actions, kind);
    var rs := Reports(Run(s, actions).value, s.next);
    assert rs[|rs| - 1] == own;
  }

  /** The exact condition in terms of lists. */
  lemma HandsOnlyOwnIff<T(!new)>(s: State<T>, kind: Kind, a: T, b: T)
    requires Reachable(s) && s.caller.Idle? && a != b
    ensures HandsOnlyOwn(s, kind) <==> s.inFlight == map[]
  {
    hide Run, Next;
    if s.inFlight == map[] {
      forall actions: seq<Action<T>>, own: T
        | OneCall(actions, kind) && Run(s, actions).Some? && Run(s, actions).value.caller == Idle(Some(Ok))
          && TrueTo(Run(s, actions).value, s.next, Some(own))
        ensures Held(Run(s, actions).value, kind) == Some(own)
      {
        OwnListHanded(s, actions, kind, Some(own));
      }
    } else {
      var before: seq<Action<T>> :| Run(Init(), before) == Some(s);
      SoundRun(before);
      var late :| late in s.inFlight;
      if s.open.Some? { late := s.open.value; }
      LateReadIntrudes(s, kind, late, a);
      var r := Run(s, Intrusion(s, kind, late, a)).value;
      var own := if Held(r, kind) == Some(a) then b else a;
      assert TrueTo(r, s.next, Some(own)) && Held(r, kind) != Some(own);
    }
  }

  /** The condition is not met by never succeeding: the call's own report makes it return Ok with that list. */
  lemma OwnReadSucceeds<T>(s: State<T>, kind: Kind, data: T)
    requires Sound(s) && s.caller.Idle? && s.inFlight == map[]
    ensures var own := Asking(kind) + Finishing(s, s.next, data);
      && OneCall(own, kind) && Run(s, own).Some?
      && Run(s, own).value.caller == Idle(Some(Ok))
      && Fresh(Run(s, own).value, kind, s.next)
      && Run(s, own).value.snaps[kind] == Snapshot(s.next, Some(data))
  {
    var u := Asked(s, kind);
    AskingRuns(s, kind);
    FinishingRuns(u, s.next, data);
    assert Finishing(u, s.next, data) == Finishing(s, s.next, data);
    RunSplit(s, Asking(kind), Finishing(u, s.next, data));
  }

  // ---- Runs ------------------------------------------------------------------------------------------------

  /** Callers wait until every earlier read has ended before they enter. */
  ghost predicate Patient<T>(actions: seq<Action<T>>) {
    forall i :: 0 <= i < |actions| && actions[i].Enter? && Run(Init(), actions[..i]).Some? ==>
      Run(Init(), actions[..i]).value.inFlight == map[]
  }

  /** In a run of patient callers a snapshot handed out is fresh, and stays so until the next call. */
  lemma {:induction false} PatientRunsAreFresh<T>(actions: seq<Action<T>>)
    requires Patient(actions) && Run(Init(), actions).Some?
    ensures var t := Run(Init(), actions).value;
      t.caller == Idle(Some(Ok)) ==> exists kind: Kind, id: nat :: t.next == id + 1 && Fresh(t, kind, id)
  {
    PatientInv(actions);
    var t := Run(Init(), actions).value;
    if t.caller == Idle(Some(Ok)) {
      var kind: Kind, n: nat :| InCall(t, kind, n);
      assert Fresh(t, kind, n);
    }
  }

  ghost predicate Started<T>(t: State<T>) {
    Sound(t) && ((t.caller == Idle(None) && t.inFlight == map[]) || exists kind: Kind, n: nat :: InCall(t, kind, n))
  }

  lemma {:induction false} PatientInv<T>(actions: seq<Action<T>>)
    requires Patient(actions) && Run(Init(), actions).Some?
    ensures Started(Run(Init(), actions).value)
  {
    if actions != [] {
      var n := |actions| - 1;
      var s, a := Run(Init(), actions[..n]).value, actions[n];
      forall i | 0 <= i < n ensures actions[..n][..i] == actions[..i] { }
      PatientInv(actions[..n]);
      SoundNext(s, a);
      if a.Enter? {
        assert InCall(Next(s, a).value, a.kind, s.next);
      } else if s.caller != Idle(None) {
        var kind: Kind, id: nat :| InCall(s, kind, id);
        InCallNext(s, a, kind, id);
      }
    }
  }

  /** The drain is needed even between patient callers: a read that timed out and finished later leaves its
      signal behind. */
  lemma StaleSignal<T>(kind: Kind)
    ensures var run: seq<Action<T>> := [Enter(kind), Clear, Drain, Send, Expire, Done(0), Enter(kind), Clear];
      && Patient(run) && Run(Init<T>(), run).Some?
      && Run(Init<T>(), run).value.signal && Run(Init<T>(), run).value.caller == Cleared(kind)
  {
    var s0: State<T> := Init();
    var entry: seq<Action<T>> := Asking(kind);
    AskingRuns(s0, kind);
    GoOn(s0, entry, Expire, entry + [Expire]);
    GoOn(s0, entry + [Expire], Done(0), entry + [Expire, Done(0)]);
    GoOn(s0, entry + [Expire, Done(0)], Enter(kind), entry + [Expire, Done(0), Enter(kind)]);
    GoOn(s0, entry + [Expire, Done(0), Enter(kind)], Clear, entry + [Expire, Done(0), Enter(kind), Clear]);
    var run := entry + [Expire, Done(0), Enter(kind), Clear];
    assert run[..0] == [] && run[..6] == entry + [Expire, Done(0)];
    assert run == [Enter(kind), Clear, Drain, Send, Expire, Done(0), Enter(kind), Clear];
  }
}

/**
 Model of operation control in cmd/tbwasm/main.go as a state machine.  Operation calls and reset
 cleanups are goroutines, each at its own phase; page calls and goroutine steps interleave in any
 order, one critical section at a time, and destroying an arena may fail whenever the environment
 says so.
 */
module Operations {
  import opened Basics

  type Id = nat
  type Call = nat
  type Channel = nat

  datatype Kind = Introspect | BuildIso | BuildDdi | Export

  /** Where the goroutine of an operation is.  `pending` is the channel it captured when it acquired. */
  datatype Phase =
    | Waiting(kind: Kind, pending: Option<Channel>)
    | Clearing                     // introspect, about to clear the previous source
    | Intro(stage: nat)            // introspect, with the number of arenas it has created
    | Building(locals: set<Id>)    // buildIso, with the arenas its deferred cleanups will destroy
    | BuildingDdi(arena: set<Id>)  // buildDdiIso, with its root arena once created
    | Exporting
    | Ending                       // the body has returned, the deferred release has not

  /** Where the goroutine of a reset is: it destroys what it was handed, then publishes the result. */
  datatype Cleanup = Destroying(victims: set<Id>) | Publishing(ok: bool)

  /** `calls` and `cleanups` are the live goroutines, a cleanup by the channel it will close.
      `recorded` is resetStore and resetBlobs (None when both are nil), `extras` is cleanupArenas and
      `failed` is resetErr != nil.  `dropped` are the arenas of buildDdiIso whose destruction failed:
      it discards that error. */
  datatype State = State(
    busy: bool, calls: map<Call, Phase>,
    resetPending: Option<Channel>, closed: set<Channel>, cleanups: map<Channel, Cleanup>,
    failed: bool, recorded: Option<set<Id>>, extras: set<Id>, globals: set<Id>,
    alive: set<Id>, created: set<Id>, dropped: set<Id>)

  const INITIAL := State(false, map[], None, {}, map[], false, None, {}, {}, {}, {}, {})

  /** Atomic steps.  `ok` are the arenas whose destruction would work at that moment. */
  datatype Step =
    | CallOperation(call: Call, kind: Kind)
    | BeginBody(call: Call)
    | ClearSource(call: Call, ok: set<Id>)     // introspect's first resetGlobalState
    | CreateSource(call: Call, id: Id)         // newOpfsArena for gStore, then for gBlobArena
    | FailIntrospect(call: Call, ok: set<Id>)  // the deferred resetGlobalState
    | CompleteIntrospect(call: Call)
    | CreateLocal(call: Call, id: Id)          // an arena of buildIso
    | EndBuild(call: Call, ok: set<Id>)        // the deferred cleanups
    | CreateDdi(call: Call, id: Id)
    | EndDdi(call: Call, ok: set<Id>)          // the deferred Destroy
    | EndExport(call: Call)
    | Release(call: Call)
    | CallReset(channel: Channel)
    | Destroy(channel: Channel, ok: set<Id>)
    | Publish(channel: Channel)

  predicate At(s: State, c: Call, p: Phase) {
    c in s.calls && s.calls[c] == p
  }

  function Enter(s: State, c: Call, p: Phase): State {
    s.(calls := s.calls[c := p])
  }

  /** destroySource and Destroy are idempotent: only arenas still alive can fail. */
  function Survivors(s: State, victims: set<Id>, ok: set<Id>): set<Id> {
    (s.alive * victims) - ok
  }

  function Members(o: Option<set<Id>>): set<Id> {
    if o.Some? then o.value else {}
  }

  /** The same goroutines at the same phases, with the same flags and channels. */
  predicate SameControl(s: State, r: State) {
    && r.busy == s.busy && r.calls == s.calls
    && r.resetPending == s.resetPending && r.closed == s.closed && r.cleanups == s.cleanups
  }

  /** resetGlobalState: clears the globals, destroys what they held, and records a failure. */
  function ResetGlobals(s: State, ok: set<Id>): (r: State)
    ensures SameControl(s, r)
  {
    var left := Survivors(s, s.globals, ok);
    var s' := s.(globals := {}, alive := s.alive - (s.globals - left));
    if left == {} then s' else s'.(failed := true, recorded := Some(s.globals))
  }

  /** rememberCleanupFailure for each arena of a build that could not be destroyed. */
  function RememberFailures(s: State, left: set<Id>): (r: State)
    ensures SameControl(s, r)
  {
    if left == {} then s
    else s.(failed := true, extras := s.extras + left,
            recorded := if s.recorded.None? then Some(s.globals) else s.recorded)
  }

  function Create(s: State, id: Id): State {
    s.(alive := s.alive + {id}, created := s.created + {id})
  }

  /** operationPromise: refused while busy; otherwise it acquires and captures the reset's channel. */
  function Acquire(s: State, c: Call, kind: Kind): State {
    if s.busy || c in s.calls then s else Enter(s, c, Waiting(kind, s.resetPending)).(busy := true)
  }

  /** The goroutine proceeds once the channel it captured is closed, and then looks at resetErr. */
  function Begin(s: State, c: Call): State {
    if c !in s.calls || !s.calls[c].Waiting? then s
    else if s.calls[c].pending.Some? && s.calls[c].pending.value !in s.closed then s
    else if s.failed then Enter(s, c, Ending)
    else Enter(s, c,
      match s.calls[c].kind
      case Introspect => Clearing
      case BuildIso => if s.globals == {} then Ending else Building({})
      case BuildDdi => BuildingDdi({})
      case Export => Exporting)
  }

  /** resetOperation: refused while busy; joins a cleanup whose channel is open; otherwise clears the
      globals and starts a new cleanup with a new channel. */
  function Reset(s: State, ch: Channel): State {
    if s.busy || ch in s.closed || ch in s.cleanups then s
    else if s.resetPending.Some? && s.resetPending.value !in s.closed then s
    else
      var recorded := if s.failed then s.recorded else Some(s.globals);
      s.(recorded := recorded, globals := {}, resetPending := Some(ch),
         cleanups := s.cleanups[ch := Destroying(Members(recorded) + s.extras)])
  }

  function Next(s: State, a: Step): State {
    match a
    case CallOperation(c, kind) => Acquire(s, c, kind)
    case BeginBody(c) => Begin(s, c)
    case ClearSource(c, ok) =>
      if !At(s, c, Clearing) then s else
      var s' := ResetGlobals(s, ok);
      Enter(s', c, if s'.failed then Ending else Intro(0))
    case CreateSource(c, id) =>
      if c !in s.calls || !s.calls[c].Intro? || s.calls[c].stage >= 2 || id in s.created then s
      else Create(Enter(s, c, Intro(s.calls[c].stage + 1)), id).(globals := s.globals + {id})
    case FailIntrospect(c, ok) =>
      if c !in s.calls || !s.calls[c].Intro? then s else Enter(ResetGlobals(s, ok), c, Ending)
    case CompleteIntrospect(c) => if At(s, c, Intro(2)) then Enter(s, c, Ending) else s
    case CreateLocal(c, id) =>
      if c !in s.calls || !s.calls[c].Building? || id in s.created then s
      else Create(Enter(s, c, Building(s.calls[c].locals + {id})), id)
    case EndBuild(c, ok) =>
      if c !in s.calls || !s.calls[c].Building? then s else
      var left := Survivors(s, s.calls[c].locals, ok);
      Enter(RememberFailures(s.(alive := s.alive - (s.calls[c].locals - left)), left), c, Ending)
    case CreateDdi(c, id) =>
      if !At(s, c, BuildingDdi({})) || id in s.created then s
      else Create(Enter(s, c, BuildingDdi({id})), id)
    case EndDdi(c, ok) =>
      if c !in s.calls || !s.calls[c].BuildingDdi? then s else
      var left := Survivors(s, s.calls[c].arena, ok);
      Enter(s.(alive := s.alive - (s.calls[c].arena - left), dropped := s.dropped + left), c, Ending)
    case EndExport(c) => if At(s, c, Exporting) then Enter(s, c, Ending) else s
    case Release(c) => if At(s, c, Ending) then s.(busy := false, calls := s.calls - {c}) else s
    case CallReset(ch) => Reset(s, ch)
    case Destroy(ch, ok) =>
      if ch !in s.cleanups || !s.cleanups[ch].Destroying? then s else
      var left := Survivors(s, s.cleanups[ch].victims, ok);
      s.(alive := s.alive - (s.cleanups[ch].victims - left), cleanups := s.cleanups[ch := Publishing(left == {})])
    case Publish(ch) =>
      if ch !in s.cleanups || !s.cleanups[ch].Publishing? then s else
      var ok := s.cleanups[ch].ok;
      s.(failed := !ok, recorded := if ok then None else s.recorded, extras := if ok then {} else s.extras,
         closed := s.closed + {ch}, cleanups := s.cleanups - {ch})
  }

  function Run(steps: seq<Step>): State {
    if steps == [] then INITIAL else Next(Run(steps[..|steps| - 1]), steps[|steps| - 1])
  }

  // ---------- what every reachable state satisfies ----------

  predicate IsBody(p: Phase) {
    !p.Waiting? && !p.Ending?
  }

  function Bodies(s: State): set<Call> {
    set c | c in s.calls && IsBody(s.calls[c])
  }

  /** The busy flag and the captured channels do their work: one operation, one cleanup, never both. */
  ghost predicate Exclusive(s: State) {
    && (s.busy <==> exists c :: c in s.calls)
    && (forall c, d | c in s.calls && d in s.calls :: c == d)
    && (forall ch | ch in s.cleanups :: s.resetPending == Some(ch) && ch !in s.closed)
    && (s.resetPending.Some? ==> s.resetPending.value in s.closed || s.resetPending.value in s.cleanups)
    && (forall c | c in s.calls && s.calls[c].Waiting? :: s.calls[c].pending == s.resetPending)
    && (forall c | c in s.calls && IsBody(s.calls[c]) :: s.cleanups == map[])
  }

  /** A failure stays recorded with all that it left behind, and keeps bodies from running. */
  ghost predicate Recording(s: State) {
    && (forall c | c in s.calls && IsBody(s.calls[c]) :: !s.failed)
    && (!s.failed && s.cleanups == map[] ==> s.recorded == None && s.extras == {})
    && (s.failed ==> s.recorded.Some? && s.alive * s.globals <= s.recorded.value)
    && (forall ch | ch in s.cleanups :: s.globals == {} && s.recorded.Some? && Handed(s, s.cleanups[ch]))
  }

  /** What a cleanup was handed is all that is recorded; once destroyed, none of it is alive. */
  ghost predicate Handed(s: State, k: Cleanup) {
    match k
    case Destroying(victims) => victims == Members(s.recorded) + s.extras
    case Publishing(ok) => ok ==> s.alive !! Members(s.recorded) + s.extras
  }

  function LocalsOf(p: Phase): set<Id> {
    match p
    case Building(locals) => locals
    case BuildingDdi(arena) => arena
    case _ => {}
  }

  /** A running build will destroy it. */
  ghost predicate Owned(s: State, id: Id) {
    exists c :: c in s.calls && id in LocalsOf(s.calls[c])
  }

  /** Reachable from the globals or recorded for a later reset. */
  predicate Kept(s: State, id: Id) {
    id in s.globals || id in Members(s.recorded) || id in s.extras
  }

  ghost predicate Accounted(s: State, id: Id) {
    && (id in s.alive || id in s.dropped || Kept(s, id) || Owned(s, id) ==> id in s.created)
    && (id in s.alive ==> Kept(s, id) || Owned(s, id) || id in s.dropped)
    && (id in s.dropped ==> id in s.alive && !Kept(s, id) && !Owned(s, id))
    && (Owned(s, id) ==> !Kept(s, id))
  }

  ghost predicate Inv(s: State) {
    Exclusive(s) && Recording(s) && forall id :: Accounted(s, id)
  }

  /** Steps of a reset and its cleanup; the others are operation calls. */
  predicate IsReset(a: Step) {
    a.CallReset? || a.Destroy? || a.Publish?
  }

  lemma ExclusiveReset(s: State, a: Step)
    requires Exclusive(s) && IsReset(a)
    ensures Exclusive(Next(s, a))
  {
  }

  /** Acquiring, waiting and releasing. */
  predicate IsGate(a: Step) {
    a.CallOperation? || a.BeginBody? || a.Release?
  }

  lemma ExclusiveGate(s: State, a: Step)
    requires Exclusive(s) && IsGate(a)
    ensures Exclusive(Next(s, a))
  {
    var s' := Next(s, a);
    if s.busy && !a.Release? {
      var c :| c in s.calls;
      assert c in s'.calls;
    } else if a.CallOperation? && !s.busy {
      assert a.call in s'.calls;
    }
  }

  /** A step of a body touches no control state ... */
  lemma BodyKeeps(s: State, a: Step)
    requires !IsReset(a) && !IsGate(a)
    ensures var s' := Next(s, a);
            && s'.busy == s.busy && s'.resetPending == s.resetPending && s'.closed == s.closed
            && s'.cleanups == s.cleanups
  {
    hide ResetGlobals, RememberFailures, Survivors;
  }

  /** ... and moves its own goroutine on. */
  lemma BodyMoves(s: State, a: Step, c: Call)
    requires !IsReset(a) && !IsGate(a)
    ensures var s' := Next(s, a);
            && (c in s'.calls <==> c in s.calls)
            && (c in s.calls ==> s'.calls[c] == s.calls[c] || (IsBody(s.calls[c]) && !s'.calls[c].Waiting?))
  {
    hide ResetGlobals, RememberFailures, Survivors;
  }

  lemma ExclusiveBody(s: State, a: Step)
    requires Exclusive(s) && !IsReset(a) && !IsGate(a)
    ensures Exclusive(Next(s, a))
  {
    hide Next;
    BodyKeeps(s, a);
    var s' := Next(s, a);
    forall c: Call
      ensures c in s'.calls <==> c in s.calls
      ensures c in s.calls ==> s'.calls[c] == s.calls[c] || (IsBody(s.calls[c]) && !s'.calls[c].Waiting?)
    {
      BodyMoves(s, a, c);
    }
  }

  lemma RecordingReset(s: State, a: Step)
    requires Exclusive(s) && Recording(s) && IsReset(a)
    ensures Recording(Next(s, a))
  {
  }

  lemma RecordingCall(s: State, a: Step)
    requires Exclusive(s) && Recording(s) && !IsReset(a)
    ensures Recording(Next(s, a))
  {
  }

  lemma AccountedReset(s: State, a: Step, id: Id)
    requires Exclusive(s) && Recording(s) && Accounted(s, id) && IsReset(a)
    ensures Accounted(Next(s, a), id)
  {
    assert Next(s, a).calls == s.calls;
  }

  /** Steps that leave the owned arenas alone. */
  predicate IsQuiet(a: Step) {
    !IsReset(a) && !a.CreateLocal? && !a.EndBuild? && !a.CreateDdi? && !a.EndDdi?
  }

  lemma OwnedQuiet(s: State, a: Step, id: Id)
    requires Exclusive(s) && IsQuiet(a)
    ensures Owned(Next(s, a), id) <==> Owned(s, id)
  {
    var s' := Next(s, a);
    if Owned(s, id) {
      var c :| c in s.calls && id in LocalsOf(s.calls[c]);
      assert c in s'.calls && id in LocalsOf(s'.calls[c]);
    }
  }

  lemma AccountedQuiet(s: State, a: Step, id: Id)
    requires Exclusive(s) && Recording(s) && Accounted(s, id) && IsQuiet(a)
    ensures Accounted(Next(s, a), id)
  {
    hide Owned;
    OwnedQuiet(s, a, id);
  }

  lemma AccountedBuild(s: State, a: Step, id: Id)
    requires Exclusive(s) && Recording(s) && Accounted(s, id) && !IsReset(a) && !IsQuiet(a)
    ensures Accounted(Next(s, a), id)
  {
    var s' := Next(s, a);
    if Owned(s, id) {
      var c :| c in s.calls && id in LocalsOf(s.calls[c]);
      assert c in s'.calls && id in LocalsOf(s'.calls[c]) ==> Owned(s', id);
    } else if (a.CreateLocal? || a.CreateDdi?) && a.call in s'.calls && id in LocalsOf(s'.calls[a.call]) {
      assert Owned(s', id);
    }
  }

  lemma InvNext(s: State, a: Step)
    requires Inv(s)
    ensures Inv(Next(s, a))
  {
    hide Next, Exclusive, Recording, Accounted;
    if IsReset(a) {
      ExclusiveReset(s, a);
      RecordingReset(s, a);
      forall id ensures Accounted(Next(s, a), id) { AccountedReset(s, a, id); }
    } else {
      if IsGate(a) { ExclusiveGate(s, a); } else { ExclusiveBody(s, a); }
      RecordingCall(s, a);
      forall id ensures Accounted(Next(s, a), id) {
        if IsQuiet(a) { AccountedQuiet(s, a, id); } else { AccountedBuild(s, a, id); }
      }
    }
  }

  lemma {:induction false} InvRun(steps: seq<Step>)
    ensures Inv(Run(steps))
  {
    hide Inv, Next;
    if steps == [] {
      InvInitial();
    } else {
      InvRun(steps[..|steps| - 1]);
      InvNext(Run(steps[..|steps| - 1]), steps[|steps| - 1]);
    }
  }

  lemma InvInitial()
    ensures Inv(INITIAL)
  {
  }

  // ---------- exclusion ----------

  /** In every interleaving, running operation bodies and running cleanups are at most one together. */
  lemma BodiesExclude(steps: seq<Step>)
    ensures |Bodies(Run(steps))| + |Run(steps).cleanups.Keys| <= 1
    ensures |Run(steps).calls.Keys| <= 1
  {
    var s := Run(steps);
    InvRun(steps);
    AtMostOne(s.calls.Keys);
    AtMostOne(s.cleanups.Keys);
    AtMostOne(Bodies(s));
    if c :| c in Bodies(s) {
      assert IsBody(s.calls[c]) && s.cleanups.Keys == {};
    }
  }

  lemma AtMostOne<T>(x: set<T>)
    requires forall a, b | a in x && b in x :: a == b
    ensures |x| <= 1
  {
    if a :| a in x { assert x == {a}; }
  }

  /** A call that waits for a cleanup waits for one that has published or is still at work. */
  lemma WaitsForRunningCleanup(steps: seq<Step>, c: Call)
    requires c in Run(steps).calls && Run(steps).calls[c].Waiting?
    ensures var p := Run(steps).calls[c].pending;
            p.Some? ==> p.value in Run(steps).closed || p.value in Run(steps).cleanups
  {
    InvRun(steps);
  }

  // ---------- failures ----------

  /** A reset succeeds at step `k`. */
  ghost predicate SucceedsAt(steps: seq<Step>, k: nat)
    requires k < |steps|
  {
    var s := Run(steps[..k]);
    steps[k].Publish? && steps[k].channel in s.cleanups && s.cleanups[steps[k].channel] == Publishing(true)
  }

  lemma FailureLasts(s: State, a: Step)
    requires Inv(s) && s.failed
    ensures Next(s, a).failed || (a.Publish? && a.channel in s.cleanups && s.cleanups[a.channel] == Publishing(true))
  {
  }

  lemma FailedIdle(s: State)
    requires Inv(s) && s.failed
    ensures Bodies(s) == {}
  {
  }

  lemma RunStep(steps: seq<Step>, k: nat)
    requires k < |steps|
    ensures Run(steps[..k + 1]) == Next(Run(steps[..k]), steps[k])
  {
    assert steps[..k + 1][..k] == steps[..k];
  }

  /** After a failed cleanup no operation body runs until a reset succeeds. */
  lemma {:induction false} RefusedUntilReset(steps: seq<Step>, from: nat, to: nat)
    requires from <= to <= |steps| && Run(steps[..from]).failed
    requires forall k | from <= k < to :: !SucceedsAt(steps, k)
    ensures Run(steps[..to]).failed && Bodies(Run(steps[..to])) == {}
  {
    hide Next, Inv;
    InvRun(steps[..to]);
    if from < to {
      RefusedUntilReset(steps, from, to - 1);
      InvRun(steps[..to - 1]);
      assert !SucceedsAt(steps, to - 1);
      RunStep(steps, to - 1);
      FailureLasts(Run(steps[..to - 1]), steps[to - 1]);
    }
    FailedIdle(Run(steps[..to]));
  }

  /** A successful reset leaves no arena alive but those buildDdiIso dropped. */
  lemma ResetFreesEverything(steps: seq<Step>, k: nat)
    requires k < |steps| && SucceedsAt(steps, k)
    ensures Run(steps[..k + 1]).alive == Run(steps[..k + 1]).dropped
  {
    hide Run;
    InvRun(steps[..k]);
    InvRun(steps[..k + 1]);
    RunStep(steps, k);
    var s, s' := Run(steps[..k]), Run(steps[..k + 1]);
    forall id ensures id in s'.alive <==> id in s'.dropped { FreedOrDropped(s, s', steps[k].channel, id); }
  }

  lemma FreedOrDropped(s: State, s': State, ch: Channel, id: Id)
    requires Inv(s) && Accounted(s', id) && s' == Next(s, Publish(ch)) && ch in s.cleanups &&
             s.cleanups[ch] == Publishing(true)
    ensures id in s'.alive <==> id in s'.dropped
  {
    assert Accounted(s, id);
    if Owned(s, id) { BuildsExcludeCleanups(s, id); }
  }

  lemma BuildsExcludeCleanups(s: State, id: Id)
    requires Exclusive(s) && Owned(s, id)
    ensures s.cleanups == map[]
  {
    var c :| c in s.calls && id in LocalsOf(s.calls[c]);
    assert IsBody(s.calls[c]);
  }

  /** From any reachable state without a live goroutine, a reset whose destructions all work frees
      everything and lets operations run again. */
  lemma ResetRecovers(steps: seq<Step>, ch: Channel, c: Call, kind: Kind)
    requires var s := Run(steps); s.calls == map[] && s.cleanups == map[] && ch !in s.closed && kind != BuildIso
    ensures var more := [CallReset(ch), Destroy(ch, Run(steps).alive), Publish(ch), CallOperation(c, kind),
            BeginBody(c)];
            Bodies(Run(steps + more)) == {c} && Run(steps + more).alive == Run(steps + more).dropped
  {
    hide Run, Next, Inv;
    var s := Run(steps);
    var more := [CallReset(ch), Destroy(ch, s.alive), Publish(ch), CallOperation(c, kind), BeginBody(c)];
    var all := steps + more;
    assert all[..|steps|] == steps && all[..|all|] == all;
    RunStep(all, |steps|);
    RunStep(all, |steps| + 1);
    RunStep(all, |steps| + 2);
    RunStep(all, |steps| + 3);
    RunStep(all, |steps| + 4);
    InvRun(steps);
    CleansUp(s, ch);
    InvRun(all[..|steps| + 3]);
    Resumes(Run(all[..|steps| + 3]), c, kind);
    assert SucceedsAt(all, |steps| + 2);
    ResetFreesEverything(all, |steps| + 2);
  }

  lemma CleansUp(s: State, ch: Channel)
    requires Inv(s) && s.calls == map[] && s.cleanups == map[] && ch !in s.closed
    ensures var s1 := Next(s, CallReset(ch));
            var s2 := Next(s1, Destroy(ch, s.alive));
            var s3 := Next(s2, Publish(ch));
            && ch in s2.cleanups && s2.cleanups[ch] == Publishing(true)
            && s3.calls == map[] && s3.cleanups == map[] && !s3.busy && !s3.failed
  {
    var s1 := Next(s, CallReset(ch));
    assert s1.cleanups == map[ch := Destroying(Members(s1.recorded) + s.extras)] && s1.alive == s.alive;
    var s2 := Next(s1, Destroy(ch, s.alive));
    assert Survivors(s1, s1.cleanups[ch].victims, s.alive) == {};
  }

  lemma Resumes(s: State, c: Call, kind: Kind)
    requires Inv(s) && s.calls == map[] && s.cleanups == map[] && !s.busy && !s.failed && kind != BuildIso
    ensures var s' := Next(Next(s, CallOperation(c, kind)), BeginBody(c));
            Bodies(s') == {c} && s'.alive == s.alive && s'.dropped == s.dropped
  {
    var s1 := Next(s, CallOperation(c, kind));
    assert s1.calls == map[c := Waiting(kind, s.resetPending)];
  }

  // ---------- the source that buildIso builds from ----------

  /** An introspect of two arenas completes at step `k`. */
  ghost predicate IntrospectedAt(steps: seq<Step>, k: nat)
    requires k < |steps|
  {
    steps[k].CompleteIntrospect? && At(Run(steps[..k]), steps[k].call, Intro(2))
  }

  /** Step `k` gives up the source: introspect's first or deferred reset, or a page's reset that starts
      a cleanup. */
  ghost predicate GivesUp(s: State, a: Step) {
    match a
    case ClearSource(c, _) => At(s, c, Clearing)
    case FailIntrospect(c, _) => c in s.calls && s.calls[c].Intro?
    case CallReset(ch) => ch !in s.cleanups && ch in Next(s, a).cleanups
    case _ => false
  }

  ghost predicate GivenUpAt(steps: seq<Step>, k: nat)
    requires k < |steps|
  {
    GivesUp(Run(steps[..k]), steps[k])
  }

  /** An introspect completed before step `n`, and its source was not given up since. */
  ghost predicate SourceAt(steps: seq<Step>, n: nat)
    requires n <= |steps|
  {
    exists i :: 0 <= i < n && IntrospectedAt(steps, i) && forall j | i < j < n :: !GivenUpAt(steps, j)
  }

  ghost predicate Introspecting(s: State) {
    exists c :: c in s.calls && s.calls[c].Intro?
  }

  /** Giving up empties the globals; what they held is destroyed as far as that works, and recorded
      otherwise. */
  lemma GivingUp(s: State, a: Step)
    requires Inv(s) && GivesUp(s, a)
    ensures var s' := Next(s, a);
            && s'.globals == {} && s'.alive == s.alive - (if a.CallReset? then {} else s.globals * a.ok)
            && (forall id | id in s.globals && id in s'.alive :: id in Members(s'.recorded))
            && (!a.CallReset? ==> (s'.failed <==> s.alive * s.globals - a.ok != {}))
  {
  }

  /** So in every interleaving. */
  lemma SourceGivenUp(steps: seq<Step>, k: nat)
    requires k < |steps| && GivenUpAt(steps, k)
    ensures var s, s' := Run(steps[..k]), Run(steps[..k + 1]);
            && s'.globals == {} && s'.alive == s.alive - (if steps[k].CallReset? then {} else s.globals * steps[k].ok)
            && forall id | id in s.globals && id in s'.alive :: id in Members(s'.recorded)
  {
    hide Next, Inv, Run;
    InvRun(steps[..k]);
    RunStep(steps, k);
    assert GivesUp(Run(steps[..k]), steps[k]);
    GivingUp(Run(steps[..k]), steps[k]);
  }

  /** The globals hold a source only during an introspect, or after one that completed. */
  lemma {:induction false} SourceFromIntrospect(steps: seq<Step>, n: nat)
    requires n <= |steps| && Run(steps[..n]).globals != {}
    ensures Introspecting(Run(steps[..n])) || SourceAt(steps, n)
  {
    hide Next, Inv, IntrospectedAt, GivenUpAt, Introspecting;
    assert steps[..0] == [];
    if n > 0 {
      var s, a := Run(steps[..n - 1]), steps[n - 1];
      InvRun(steps[..n - 1]);
      RunStep(steps, n - 1);
      GivenUpIs(steps, n - 1);
      if GivesUp(s, a) {
        GivingUp(s, a);
        assert false;
      } else if !Introspecting(Next(s, a)) {
        GlobalsKept(s, a);
        SourceFromIntrospect(steps, n - 1);
        if Introspecting(s) {
          IntrospectEnds(s, a);
          assert IntrospectedAt(steps, n - 1) by { IntrospectedIs(steps, n - 1); }
        } else {
          var i :| 0 <= i < n - 1 && IntrospectedAt(steps, i) && forall j | i < j < n - 1 :: !GivenUpAt(steps, j);
          assert forall j | i < j < n :: !GivenUpAt(steps, j);
        }
      }
    }
  }

  lemma GivenUpIs(steps: seq<Step>, k: nat)
    requires k < |steps|
    ensures GivenUpAt(steps, k) <==> GivesUp(Run(steps[..k]), steps[k])
  {
  }

  lemma IntrospectedIs(steps: seq<Step>, k: nat)
    requires k < |steps| && steps[k].CompleteIntrospect? && At(Run(steps[..k]), steps[k].call, Intro(2))
    ensures IntrospectedAt(steps, k)
  {
  }

  lemma GlobalsKept(s: State, a: Step)
    requires Inv(s) && Next(s, a).globals != {} && !Introspecting(Next(s, a))
    ensures s.globals != {}
  {
    var s' := Next(s, a);
    assert a.CreateSource? ==> (a.call in s'.calls && s'.calls[a.call].Intro? ==> Introspecting(s'));
  }

  lemma IntrospectEnds(s: State, a: Step)
    requires Inv(s) && Introspecting(s) && !Introspecting(Next(s, a)) && !GivesUp(s, a)
    ensures a.CompleteIntrospect? && At(s, a.call, Intro(2))
  {
    var c :| c in s.calls && s.calls[c].Intro?;
    var s' := Next(s, a);
    assert c in s'.calls ==> !s'.calls[c].Intro?;
  }

  /** buildIso's body begins only with a source: in every interleaving an introspect completed before,
      and nothing gave its source up since. */
  lemma BuildNeedsSource(steps: seq<Step>, k: nat, c: Call)
    requires k < |steps| && c in Run(steps[..k + 1]).calls && Run(steps[..k + 1]).calls[c].Building?
    requires c in Run(steps[..k]).calls ==> !Run(steps[..k]).calls[c].Building?
    ensures SourceAt(steps, k)
  {
    hide Next, Inv, SourceAt, Run;
    RunStep(steps, k);
    InvRun(steps[..k]);
    BuildBegins(Run(steps[..k]), steps[k], c);
    SourceFromIntrospect(steps, k);
  }

  lemma BuildBegins(s: State, a: Step, c: Call)
    requires Inv(s) && c in Next(s, a).calls && Next(s, a).calls[c].Building?
    requires c in s.calls ==> !s.calls[c].Building?
    ensures s.globals != {} && !Introspecting(s)
  {
  }

  // ---------- calls and their bodies ----------

  /** The phases of a call of this kind. */
  predicate OfKind(p: Phase, kind: Kind) {
    match p
    case Waiting(k, _) => k == kind
    case Clearing | Intro(_) => kind == Introspect
    case Building(_) => kind == BuildIso
    case BuildingDdi(_) => kind == BuildDdi
    case Exporting => kind == Export
    case Ending => true
  }

  /** Every live goroutine was started by a page call, and runs the body that call asked for. */
  lemma {:induction false} CalledAs(steps: seq<Step>, n: nat, c: Call) returns (i: nat)
    requires n <= |steps| && c in Run(steps[..n]).calls
    ensures i < n && steps[i].CallOperation? && steps[i].call == c && !Run(steps[..i]).busy
    ensures OfKind(Run(steps[..n]).calls[c], steps[i].kind)
    ensures forall m | i < m <= n :: c in Run(steps[..m]).calls
  {
    hide Next, Run, OfKind;
    assert Run([]) == INITIAL by { RunNothing(); }
    assert steps[..0] == [];
    RunStep(steps, n - 1);
    var s, a := Run(steps[..n - 1]), steps[n - 1];
    if c in s.calls {
      i := CalledAs(steps, n - 1, c);
      KindStays(s, a, c, steps[i].kind);
    } else {
      i := n - 1;
      CallStarts(s, a, c);
    }
  }

  lemma RunNothing()
    ensures Run([]) == INITIAL
  {
  }

  lemma KindStays(s: State, a: Step, c: Call, kind: Kind)
    requires c in s.calls && OfKind(s.calls[c], kind) && c in Next(s, a).calls
    ensures OfKind(Next(s, a).calls[c], kind)
  {
  }

  lemma CallStarts(s: State, a: Step, c: Call)
    requires c !in s.calls && c in Next(s, a).calls
    ensures a.CallOperation? && a.call == c && !s.busy && OfKind(Next(s, a).calls[c], a.kind)
  {
  }

  // ---------- arenas ----------

  /** What a step is about to destroy. */
  function Held(s: State, a: Step): set<Id> {
    match a
    case ClearSource(c, _) => if At(s, c, Clearing) then s.globals else {}
    case FailIntrospect(c, _) => if c in s.calls && s.calls[c].Intro? then s.globals else {}
    case EndBuild(c, _) => if c in s.calls && s.calls[c].Building? then s.calls[c].locals else {}
    case EndDdi(c, _) => if c in s.calls && s.calls[c].BuildingDdi? then s.calls[c].arena else {}
    case Destroy(ch, _) => if ch in s.cleanups && s.cleanups[ch].Destroying? then s.cleanups[ch].victims else {}
    case _ => {}
  }

  predicate Destroys(a: Step) {
    a.ClearSource? || a.FailIntrospect? || a.EndBuild? || a.EndDdi? || a.Destroy?
  }

  ghost predicate DestroyedAt(steps: seq<Step>, k: nat, id: Id)
    requires k < |steps|
  {
    Destroys(steps[k]) && id in Held(Run(steps[..k]), steps[k]) && id in steps[k].ok
  }

  /** An arena that was created is dead exactly when some step that held it could destroy it. */
  lemma {:induction false} DestroyedIff(steps: seq<Step>, id: Id, n: nat)
    requires n <= |steps|
    ensures id in Run(steps[..n]).created && id !in Run(steps[..n]).alive <==>
              exists k :: 0 <= k < n && DestroyedAt(steps, k, id)
  {
    hide Next, Inv, Held;
    if n == 0 {
      assert steps[..0] == [];
    } else {
      DestroyedIff(steps, id, n - 1);
      RunStep(steps, n - 1);
      InvRun(steps[..n - 1]);
      DeadNext(Run(steps[..n - 1]), steps[n - 1], id);
      assert id in Run(steps[..n]).created && id !in Run(steps[..n]).alive <==>
             (id in Run(steps[..n - 1]).created && id !in Run(steps[..n - 1]).alive) || DestroyedAt(steps, n - 1, id);
    }
  }

  lemma DeadNext(s: State, a: Step, id: Id)
    requires Inv(s)
    ensures var s' := Next(s, a);
            id in s'.created && id !in s'.alive <==>
              (id in s.created && id !in s.alive) || (Destroys(a) && id in Held(s, a) && id in a.ok)
  {
    assert Accounted(s, id);
    HeldCreated(s, a, id);
  }

  lemma HeldCreated(s: State, a: Step, id: Id)
    requires Inv(s)
    ensures id in Held(s, a) ==> id in s.created
  {
    assert Accounted(s, id);
    if (a.EndBuild? || a.EndDdi?) && a.call in s.calls { assert id in LocalsOf(s.calls[a.call]) ==> Owned(s, id); }
  }

  /** An arena that introspect or buildIso could not destroy makes the step fail, and is recorded. */
  lemma FailureIsRecorded(steps: seq<Step>, k: nat, id: Id)
    requires k < |steps| && (steps[k].ClearSource? || steps[k].FailIntrospect? || steps[k].EndBuild?)
    requires id in Held(Run(steps[..k]), steps[k]) * Run(steps[..k]).alive && id !in steps[k].ok
    ensures var s' := Run(steps[..k + 1]); s'.failed && id in s'.alive && id in Members(s'.recorded) + s'.extras
  {
    hide Run;
    RunStep(steps, k);
    assert id in Survivors(Run(steps[..k]), Held(Run(steps[..k]), steps[k]), steps[k].ok);
  }

  /** Step `k` creates arena `id` for introspect or buildIso. */
  ghost predicate CreatedAt(steps: seq<Step>, k: nat, id: Id)
    requires k < |steps|
  {
    && (steps[k].CreateSource? || steps[k].CreateLocal?) && steps[k].id == id
    && id !in Run(steps[..k]).created && id in Run(steps[..k + 1]).created
  }

  /** Neither dropped nor held by buildDdiIso. */
  ghost predicate NotDdi(s: State, id: Id) {
    id in s.created && id !in s.dropped && forall c | c in s.calls && s.calls[c].BuildingDdi? :: id !in s.calls[c].arena
  }

  lemma NotDdiNext(s: State, a: Step, id: Id)
    requires NotDdi(s, id)
    ensures NotDdi(Next(s, a), id)
  {
  }

  lemma NotDdiCreated(s: State, a: Step, id: Id)
    requires Accounted(s, id) && (a.CreateSource? || a.CreateLocal?) && a.id == id && id !in s.created &&
             id in Next(s, a).created
    ensures NotDdi(Next(s, a), id)
  {
    forall c | c in s.calls && s.calls[c].BuildingDdi? ensures id !in s.calls[c].arena {
      assert id in LocalsOf(s.calls[c]) ==> Owned(s, id);
    }
  }

  /** No arena of introspect or buildIso is ever dropped, in runs with buildDdiIso too. */
  lemma {:induction false} OthersNeverDropped(steps: seq<Step>, k: nat, id: Id, to: nat)
    requires k < to <= |steps| && CreatedAt(steps, k, id)
    ensures NotDdi(Run(steps[..to]), id)
  {
    hide Run, Next, NotDdi, Accounted;
    RunStep(steps, to - 1);
    if to == k + 1 {
      InvRun(steps[..k]);
      NotDdiCreated(Run(steps[..k]), steps[k], id);
    } else {
      OthersNeverDropped(steps, k, id, to - 1);
      NotDdiNext(Run(steps[..to - 1]), steps[to - 1], id);
    }
  }

  /** Every arena of introspect or buildIso is, ever after, destroyed, reachable from the globals,
      recorded for a later reset, or owned by the build that runs. */
  lemma NoArenaIsLost(steps: seq<Step>, k: nat, id: Id)
    requires k < |steps| && CreatedAt(steps, k, id)
    ensures var s := Run(steps); id in s.alive ==> Kept(s, id) || Owned(s, id)
  {
    hide Run, Next, CreatedAt;
    OthersNeverDropped(steps, k, id, |steps|);
    assert steps[..|steps|] == steps;
    InvRun(steps);
    assert Accounted(Run(steps), id);
  }

  /** Alive, but no reset will ever reach it. */
  ghost predicate Lost(s: State, id: Id) {
    id in s.alive && !Kept(s, id) && !Owned(s, id)
  }

  /** buildDdiIso's deferred Destroy fails on `id` at step `k`. */
  ghost predicate DestroyFailsAt(steps: seq<Step>, k: nat, id: Id)
    requires k < |steps|
  {
    var s := Run(steps[..k]);
    && steps[k].EndDdi? && steps[k].call in s.calls && s.calls[steps[k].call].BuildingDdi?
    && id in s.calls[steps[k].call].arena && id in s.alive && id !in steps[k].ok
  }

  lemma {:induction false} DroppedIff(steps: seq<Step>, id: Id, to: nat)
    requires to <= |steps|
    ensures id in Run(steps[..to]).dropped <==> exists k :: 0 <= k < to && DestroyFailsAt(steps, k, id)
  {
    hide Next;
    if to == 0 {
      assert steps[..0] == [];
    } else {
      DroppedIff(steps, id, to - 1);
      RunStep(steps, to - 1);
      DroppedNext(Run(steps[..to - 1]), steps[to - 1], id);
      assert id in Run(steps[..to]).dropped <==>
             id in Run(steps[..to - 1]).dropped || DestroyFailsAt(steps, to - 1, id);
    }
  }

  lemma DroppedNext(s: State, a: Step, id: Id)
    ensures id in Next(s, a).dropped <==>
              || id in s.dropped
              || (a.EndDdi? && a.call in s.calls && s.calls[a.call].BuildingDdi? && id in s.calls[a.call].arena
                  && id in s.alive && id !in a.ok)
  {
  }

  /** An arena is lost exactly when buildDdiIso's deferred Destroy failed on it. */
  lemma LostIff(steps: seq<Step>, id: Id)
    ensures Lost(Run(steps), id) <==> exists k :: 0 <= k < |steps| && DestroyFailsAt(steps, k, id)
  {
    hide Run, Next, DestroyFailsAt;
    DroppedIff(steps, id, |steps|);
    assert steps[..|steps|] == steps;
    InvRun(steps);
    assert Accounted(Run(steps), id);
  }

  /** A run in which that happens: the arena stays alive for good and no failure is reported. */
  lemma DdiArenaCanLeak()
    ensures var s := Run([CallOperation(0, BuildDdi), BeginBody(0), CreateDdi(0, 7), EndDdi(0, {}), Release(0)]);
            Lost(s, 7) && !s.failed && s.calls == map[]
  {
    hide Next;
    var steps := [CallOperation(0, BuildDdi), BeginBody(0), CreateDdi(0, 7), EndDdi(0, {}), Release(0)];
    assert steps[..0] == [];
    LeakStates();
    RunStep(steps, 0);
    RunStep(steps, 1);
    RunStep(steps, 2);
    RunStep(steps, 3);
    RunStep(steps, 4);
    assert steps[..5] == steps;
  }

  lemma LeakStates()
    ensures var s3 := Next(Next(Next(INITIAL, CallOperation(0, BuildDdi)), BeginBody(0)), CreateDdi(0, 7));
            var s5 := Next(Next(s3, EndDdi(0, {})), Release(0));
            Lost(s5, 7) && !s5.failed && s5.calls == map[]
  {
    hide Next;
    FirstThree();
    LastTwo();
  }

  const BUILT := INITIAL.(busy := true, calls := map[0 := BuildingDdi({7})], alive := {7}, created := {7})

  lemma FirstThree()
    ensures Next(Next(Next(INITIAL, CallOperation(0, BuildDdi)), BeginBody(0)), CreateDdi(0, 7)) == BUILT
  {
    var s1 := Next(INITIAL, CallOperation(0, BuildDdi));
    assert s1.calls == map[0 := Waiting(BuildDdi, None)];
  }

  lemma LastTwo()
    ensures var s := Next(Next(BUILT, EndDdi(0, {})), Release(0)); Lost(s, 7) && !s.failed && s.calls == map[]
  {
    assert Survivors(BUILT, {7}, {}) == {7};
  }
}

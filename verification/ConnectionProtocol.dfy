/**
 The reconnecting connection manager as a protocol: any number of callers of
 `open_bi_with_reconnect` interleave at their awaits and may be dropped at any of them,
 also while holding the lock around a dial.
 */
module ConnectionProtocol {
  import opened Bytes

  type CallId = nat

  /** What the manager shares: the current connection's id, and the next id to give out. */
  datatype Shared = Shared(current: Option<nat>, nextId: nat)

  /** Under the lock: clear the current connection if it is still the one that failed. */
  function Cleared(m: Shared, id: nat): Shared {
    if m.current == Some(id) then m.(current := None) else m
  }

  /** Under the lock: install a freshly dialled connection. */
  function Installed(m: Shared): Shared {
    Shared(Some(m.nextId), m.nextId + 1)
  }

  datatype Outcome = Opened(id: nat) | OpenFailed | DialFailed | Dropped

  /** Where a call stands. Dialing holds the lock; the other waiting points do not. */
  datatype Point =
    | Lookup
    | AwaitDialLock
    | Dialing
    | Opening(id: nat)
    | Invalidating(id: nat)
    | Returned(outcome: Outcome)

  /** One call: its budget, the reconnects left, the ids it tried to open on, its dials. */
  datatype Call = Call(budget: nat, remaining: nat, point: Point, attempted: seq<nat>, dials: nat)

  /** `cleared` and `dialed` record the history: ids cleared, in order, and dials that succeeded. */
  datatype System = System(
    shared: Shared,
    lock: Option<CallId>,
    calls: map<CallId, Call>,
    cleared: seq<nat>,
    dialed: nat)

  const START := System(Shared(None, 1), None, map[], [], 0)

  datatype Action =
    | Spawn(budget: nat)
    | LookUp
    | LockForDial
    | DialSucceeds
    | DialFails
    | OpenSucceeds
    | OpenFails
    | Invalidate
    | Drop

  type Step = (CallId, Action)

  predicate IsRunning(s: System, t: CallId) {
    t in s.calls && !s.calls[t].point.Returned?
  }

  /** Which steps a call can take; a step that locks waits for the lock to be free. */
  predicate Enabled(s: System, t: CallId, a: Action)
  {
    match a
    case Spawn(_) => t !in s.calls
    case Drop => IsRunning(s, t)
    case LookUp => IsRunning(s, t) && s.calls[t].point.Lookup? && s.lock.None?
    case LockForDial => IsRunning(s, t) && s.calls[t].point.AwaitDialLock? && s.lock.None?
    case DialSucceeds => IsRunning(s, t) && s.calls[t].point.Dialing?
    case DialFails => IsRunning(s, t) && s.calls[t].point.Dialing?
    case OpenSucceeds => IsRunning(s, t) && s.calls[t].point.Opening?
    case OpenFails => IsRunning(s, t) && s.calls[t].point.Opening?
    case Invalidate => IsRunning(s, t) && s.calls[t].point.Invalidating? && s.lock.None?
  }

  /** The call starts opening a stream on a connection. */
  function StartOpen(c: Call, id: nat): Call {
    c.(point := Opening(id), attempted := c.attempted + [id])
  }

  /** After invalidating: give up, or go round again with one reconnect less. */
  function AfterInvalidate(c: Call): Call {
    if c.remaining == 0 then c.(point := Returned(OpenFailed))
    else c.(point := Lookup, remaining := c.remaining - 1)
  }

  function With(s: System, t: CallId, c: Call): System {
    s.(calls := s.calls[t := c])
  }

  function Apply(s: System, t: CallId, a: Action): System
    requires Enabled(s, t, a)
  {
    match a
    case Spawn(budget) => With(s, t, Call(budget, budget, Lookup, [], 0))
    case Drop =>
      With(s, t, s.calls[t].(point := Returned(Dropped))).(lock := if s.lock == Some(t) then None else s.lock)
    case LookUp =>
      With(s, t, if s.shared.current.Some? then StartOpen(s.calls[t], s.shared.current.value)
                 else s.calls[t].(point := AwaitDialLock))
    case LockForDial =>
      if s.shared.current.Some? then With(s, t, StartOpen(s.calls[t], s.shared.current.value))
      else With(s, t, s.calls[t].(point := Dialing, dials := s.calls[t].dials + 1)).(lock := Some(t))
    case DialSucceeds =>
      With(s, t, StartOpen(s.calls[t], s.shared.nextId))
        .(shared := Installed(s.shared), lock := None, dialed := s.dialed + 1)
    case DialFails => With(s, t, s.calls[t].(point := Returned(DialFailed))).(lock := None)
    case OpenSucceeds => With(s, t, s.calls[t].(point := Returned(Opened(s.calls[t].point.id))))
    case OpenFails => With(s, t, s.calls[t].(point := Invalidating(s.calls[t].point.id)))
    case Invalidate =>
      var id := s.calls[t].point.id;
      With(s, t, AfterInvalidate(s.calls[t]))
        .(shared := Cleared(s.shared, id),
          cleared := if s.shared.current == Some(id) then s.cleared + [id] else s.cleared)
  }

  /** The state after a sequence of steps, if each was enabled in turn. */
  function Run(steps: seq<Step>): Option<System>
  {
    if steps == [] then Some(START)
    else
      var (t, a) := steps[|steps| - 1];
      match Run(steps[..|steps| - 1])
      case None => None
      case Some(s) => if Enabled(s, t, a) then Some(Apply(s, t, a)) else None
  }

  // --------------------------------------------------------------- the invariant

  /** Ids are given out in order, and cleared in order, each once. */
  ghost predicate SharedInv(s: System)
  {
    && s.shared.nextId == s.dialed + 1
    && s.dialed == |s.cleared| + (if s.shared.current.Some? then 1 else 0)
    && (forall i :: 0 <= i < |s.cleared| ==> s.cleared[i] == i + 1)
    && (s.shared.current.Some? ==> s.shared.current.value == s.dialed)
  }

  /** The lock is held exactly by the one call that dials, and nothing is current meanwhile. */
  ghost predicate LockInv(s: System)
  {
    && (s.lock.Some? ==> s.lock.value in s.calls && s.calls[s.lock.value].point.Dialing? && s.shared.current.None?)
    && forall t :: t in s.calls && s.calls[t].point.Dialing? ==> s.lock == Some(t)
  }

  ghost predicate StrictlyIncreasing(ids: seq<nat>) {
    forall i, j :: 0 <= i < j < |ids| ==> ids[i] < ids[j]
  }

  /** Every id tried so far has been given out, and none is current any more. */
  ghost predicate AllPast(ids: seq<nat>, m: Shared) {
    forall i :: 0 <= i < |ids| ==> ids[i] < m.nextId && (m.current.Some? ==> ids[i] < m.current.value)
  }

  /** How many streams the call has failed to open: one per reconnect spent. */
  function FailedOpens(c: Call): int {
    c.budget - c.remaining + if c.point == Returned(OpenFailed) then 1 else 0
  }

  ghost predicate CallInv(c: Call, m: Shared)
  {
    && c.remaining <= c.budget
    && StrictlyIncreasing(c.attempted)
    && match c.point
       case Lookup => |c.attempted| == FailedOpens(c) && c.dials <= |c.attempted| && AllPast(c.attempted, m)
       case AwaitDialLock => |c.attempted| == FailedOpens(c) && c.dials <= |c.attempted| && AllPast(c.attempted, m)
       case Dialing => |c.attempted| == FailedOpens(c) && c.dials <= |c.attempted| + 1 && AllPast(c.attempted, m)
       case Opening(id) => OnConnection(c, id, m)
       case Invalidating(id) => OnConnection(c, id, m)
       case Returned(outcome) =>
         && |c.attempted| <= c.budget + 1 && c.dials <= c.budget + 1
         && (outcome.Opened? ==>
               |c.attempted| == FailedOpens(c) + 1 > 0 && c.attempted[|c.attempted| - 1] == outcome.id)
         && (outcome.OpenFailed? ==> |c.attempted| == FailedOpens(c) == c.budget + 1)
         && (outcome.DialFailed? ==> |c.attempted| == FailedOpens(c))
  }

  ghost predicate OnConnection(c: Call, id: nat, m: Shared) {
    && |c.attempted| == FailedOpens(c) + 1 > 0
    && c.attempted[|c.attempted| - 1] == id < m.nextId
    && c.dials <= |c.attempted|
  }

  ghost predicate Inv(s: System) {
    && SharedInv(s)
    && LockInv(s)
    && forall t :: t in s.calls ==> CallInv(s.calls[t], s.shared)
  }

  /** What other callers may do to the manager while a call waits without the lock. */
  predicate Interferes(before: Shared, after: Shared) {
    && before.nextId <= after.nextId
    && (after.current == before.current || after.current.None? || after.current.value >= before.nextId)
    && (after.current.Some? ==> after.current.value < after.nextId)
  }

  lemma StepInterferes(s: System, t: CallId, a: Action)
    requires Inv(s) && Enabled(s, t, a)
    ensures Interferes(s.shared, Apply(s, t, a).shared)
  {
  }

  /** Any number of such steps interfere no more than one. */
  lemma InterferenceComposes(a: Shared, b: Shared, c: Shared)
    requires Interferes(a, b) && Interferes(b, c)
    ensures Interferes(a, c)
  {
  }

  lemma CallSurvives(c: Call, before: Shared, after: Shared)
    requires CallInv(c, before) && Interferes(before, after)
    ensures CallInv(c, after)
  {
  }

  /** A call that goes on to a connection goes on to a newer one than any it tried. */
  lemma OpenKeepsCall(c: Call, before: Shared, id: nat, after: Shared)
    requires CallInv(c, before) && (c.point.Lookup? || c.point.AwaitDialLock? || c.point.Dialing?)
    requires id < after.nextId && (before.current == Some(id) || id == before.nextId)
    ensures CallInv(StartOpen(c, id), after)
  {
  }

  lemma InvalidateKeepsCall(c: Call, m: Shared)
    requires CallInv(c, m) && c.point.Invalidating?
    requires m.current.Some? ==> m.current.value + 1 == m.nextId
    ensures CallInv(AfterInvalidate(c), Cleared(m, c.point.id))
  {
  }

  lemma DialKeepsCall(c: Call, m: Shared)
    requires CallInv(c, m) && c.point.AwaitDialLock?
    ensures CallInv(c.(point := Dialing, dials := c.dials + 1), m)
  {
  }

  lemma DropKeepsCall(c: Call, m: Shared)
    requires CallInv(c, m) && !c.point.Returned?
    ensures CallInv(c.(point := Returned(Dropped)), m)
  {
  }

  lemma DialFailureKeepsCall(c: Call, m: Shared)
    requires CallInv(c, m) && c.point.Dialing?
    ensures CallInv(c.(point := Returned(DialFailed)), m)
  {
  }

  lemma OpenedKeepsCall(c: Call, m: Shared)
    requires CallInv(c, m) && c.point.Opening?
    ensures CallInv(c.(point := Returned(Opened(c.point.id))), m)
  {
  }

  lemma OwnStepKeepsCall(s: System, t: CallId, a: Action)
    requires SharedInv(s) && Enabled(s, t, a) && (t in s.calls ==> CallInv(s.calls[t], s.shared))
    ensures var after := Apply(s, t, a); CallInv(after.calls[t], after.shared)
  {
    match a
    case Spawn(_) =>
    case Drop => DropKeepsCall(s.calls[t], s.shared);
    case DialFails => DialFailureKeepsCall(s.calls[t], s.shared);
    case OpenSucceeds => OpenedKeepsCall(s.calls[t], s.shared);
    case OpenFails =>
    case DialSucceeds => OpenKeepsCall(s.calls[t], s.shared, s.shared.nextId, Installed(s.shared));
    case Invalidate => InvalidateKeepsCall(s.calls[t], s.shared);
    case LookUp =>
      if s.shared.current.Some? {
        OpenKeepsCall(s.calls[t], s.shared, s.shared.current.value, s.shared);
      }
    case LockForDial =>
      if s.shared.current.Some? {
        OpenKeepsCall(s.calls[t], s.shared, s.shared.current.value, s.shared);
      } else {
        DialKeepsCall(s.calls[t], s.shared);
      }
  }

  lemma StepKeepsShared(s: System, t: CallId, a: Action)
    requires Inv(s) && Enabled(s, t, a)
    ensures SharedInv(Apply(s, t, a)) && LockInv(Apply(s, t, a))
  {
  }

  lemma StepKeepsInv(s: System, t: CallId, a: Action)
    requires Inv(s) && Enabled(s, t, a)
    ensures Inv(Apply(s, t, a))
  {
    var after := Apply(s, t, a);
    StepKeepsShared(s, t, a);
    StepInterferes(s, t, a);
    OwnStepKeepsCall(s, t, a);
    forall u | u in after.calls ensures CallInv(after.calls[u], after.shared) {
      if u != t {
        CallSurvives(s.calls[u], s.shared, after.shared);
      }
    }
  }

  lemma {:induction false} RunKeepsInv(steps: seq<Step>)
    requires Run(steps).Some?
    ensures Inv(Run(steps).value)
    decreases |steps|
  {
    if steps != [] {
      var front := steps[..|steps| - 1];
      RunKeepsInv(front);
      StepKeepsInv(Run(front).value, steps[|steps| - 1].0, steps[|steps| - 1].1);
    }
  }

  /** A step of another call leaves this one where it is, and all that is shared if this one holds the lock. */
  lemma OtherStepKeepsCall(s: System, t: CallId, u: CallId, a: Action)
    requires Inv(s) && Enabled(s, u, a) && u != t
    ensures var after := Apply(s, u, a);
            && (t in s.calls ==> t in after.calls && after.calls[t] == s.calls[t])
            && (s.lock == Some(t) ==> after.lock == Some(t) && after.shared == s.shared)
  {
  }

  /**
   Between two points of a run where only other calls stepped, they changed the shared fields
   as `Interferes` says and no more; nothing at all while this call holds the lock.
   */
  lemma {:induction false} OthersInterfere(before: seq<Step>, others: seq<Step>, t: CallId)
    requires Run(before + others).Some? && forall i :: 0 <= i < |others| ==> others[i].0 != t
    ensures Run(before).Some?
    ensures var s, after := Run(before).value, Run(before + others).value;
            && Interferes(s.shared, after.shared)
            && (t in s.calls ==> t in after.calls && after.calls[t] == s.calls[t])
            && (s.lock == Some(t) ==> after.lock == Some(t) && after.shared == s.shared)
    decreases |others|
  {
    if others == [] {
      assert before + others == before;
      RunKeepsInv(before);
    } else {
      var front := others[..|others| - 1];
      var (u, a) := others[|others| - 1];
      assert (before + others)[..|before + others| - 1] == before + front;
      OthersInterfere(before, front, t);
      RunKeepsInv(before + front);
      var middle := Run(before + front).value;
      StepInterferes(middle, u, a);
      OtherStepKeepsCall(middle, t, u, a);
      InterferenceComposes(Run(before).value.shared, middle.shared, Apply(middle, u, a).shared);
    }
  }

  // ------------------------------------------------------- what holds over every run

  function SuccessfulDials(steps: seq<Step>): nat
  {
    if steps == [] then 0
    else SuccessfulDials(steps[..|steps| - 1]) + if steps[|steps| - 1].1.DialSucceeds? then 1 else 0
  }

  /** Invalidations that found the connection they name still current. */
  function EffectiveInvalidations(steps: seq<Step>): nat
    requires Run(steps).Some?
  {
    if steps == [] then 0
    else
      var (t, a) := steps[|steps| - 1];
      var s := Run(steps[..|steps| - 1]).value;
      EffectiveInvalidations(steps[..|steps| - 1])
      + if a.Invalidate? && s.shared.current == Some(s.calls[t].point.id) then 1 else 0
  }

  lemma {:induction false} HistoryCounts(steps: seq<Step>)
    requires Run(steps).Some?
    ensures Run(steps).value.dialed == SuccessfulDials(steps)
    ensures |Run(steps).value.cleared| == EffectiveInvalidations(steps)
    decreases |steps|
  {
    if steps != [] {
      HistoryCounts(steps[..|steps| - 1]);
    }
  }

  /**
   In every interleaving, dropped callers included: each successful dial is matched by one
   effective invalidation, but for the connection still current; ids are 1, 2, 3, ... and
   are cleared in that order, each at most once.
   */
  lemma DialsAreConserved(steps: seq<Step>)
    requires Run(steps).Some?
    ensures var m := Run(steps).value.shared;
            && SuccessfulDials(steps) == EffectiveInvalidations(steps) + (if m.current.Some? then 1 else 0)
            && m.nextId == SuccessfulDials(steps) + 1
            && (m.current.Some? ==> m.current.value == SuccessfulDials(steps))
    ensures forall i :: 0 <= i < |Run(steps).value.cleared| ==> Run(steps).value.cleared[i] == i + 1
  {
    HistoryCounts(steps);
    RunKeepsInv(steps);
  }

  /** A failure that arrives late, when another connection is current, is on an older one and clears nothing. */
  lemma LateFailureClearsNothing(steps: seq<Step>, t: CallId)
    requires Run(steps).Some? && Enabled(Run(steps).value, t, Invalidate)
    ensures var s := Run(steps).value;
            var id := s.calls[t].point.id;
            s.shared.current.Some? && s.shared.current.value != id ==>
              id < s.shared.current.value && Apply(s, t, Invalidate).shared == s.shared
  {
    RunKeepsInv(steps);
    var s := Run(steps).value;
    assert CallInv(s.calls[t], s.shared);
  }

  /** At most one call dials at a time. */
  lemma DialsExcludeEachOther(steps: seq<Step>, t: CallId, u: CallId)
    requires Run(steps).Some?
    requires t in Run(steps).value.calls && Run(steps).value.calls[t].point.Dialing?
    requires u in Run(steps).value.calls && Run(steps).value.calls[u].point.Dialing?
    ensures t == u
  {
    RunKeepsInv(steps);
  }

  /** The opens of call `t` that failed in the run. */
  function FailuresOf(steps: seq<Step>, t: CallId): nat
  {
    if steps == [] then 0
    else FailuresOf(steps[..|steps| - 1], t) + if steps[|steps| - 1] == (t, OpenFails) then 1 else 0
  }

  /** The dials call `t` began in the run: it took the lock and found nothing current. */
  function DialsOf(steps: seq<Step>, t: CallId): nat
    requires Run(steps).Some?
  {
    if steps == [] then 0
    else
      var s := Run(steps[..|steps| - 1]).value;
      DialsOf(steps[..|steps| - 1], t)
      + if steps[|steps| - 1] == (t, LockForDial) && s.shared.current.None? then 1 else 0
  }

  /** What the reconnects spent say of the failures so far; a call dropped before invalidating spent one less. */
  predicate FailuresMatch(c: Call, failures: nat) {
    failures <= |c.attempted| &&
    match c.point
    case Invalidating(_) => failures == FailedOpens(c) + 1
    case Returned(Dropped) => FailedOpens(c) <= failures <= FailedOpens(c) + 1
    case _ => failures == FailedOpens(c)
  }

  lemma StepKeepsFailures(s: System, t: CallId, u: CallId, a: Action, failures: nat)
    requires Enabled(s, u, a)
    requires t in s.calls ==> CallInv(s.calls[t], s.shared)
    requires if t in s.calls then FailuresMatch(s.calls[t], failures) else failures == 0
    ensures var after := Apply(s, u, a);
            var now := failures + if (u, a) == (t, OpenFails) then 1 else 0;
            if t in after.calls then FailuresMatch(after.calls[t], now) else now == 0
  {
  }

  /** The reconnects a call spent count its failed opens in the run, */
  lemma {:induction false} FailuresAreCounted(steps: seq<Step>, t: CallId)
    requires Run(steps).Some?
    ensures var s := Run(steps).value;
            if t in s.calls then FailuresMatch(s.calls[t], FailuresOf(steps, t)) else FailuresOf(steps, t) == 0
    decreases |steps|
  {
    if steps != [] {
      var front := steps[..|steps| - 1];
      var (u, a) := steps[|steps| - 1];
      FailuresAreCounted(front, t);
      RunKeepsInv(front);
      StepKeepsFailures(Run(front).value, t, u, a, FailuresOf(front, t));
    }
  }

  /** and its other counter the dials it began. */
  lemma {:induction false} DialsAreCounted(steps: seq<Step>, t: CallId)
    requires Run(steps).Some?
    ensures var s := Run(steps).value;
            DialsOf(steps, t) == if t in s.calls then s.calls[t].dials else 0
    decreases |steps|
  {
    if steps != [] {
      DialsAreCounted(steps[..|steps| - 1], t);
    }
  }

  /**
   Whatever the other callers do, one call never tries the same connection twice, tries and
   dials at most once per reconnect and once more, and reports an open failure only after
   failing exactly that often.
   */
  lemma {:induction false} CallIsBounded(steps: seq<Step>, t: CallId)
    requires Run(steps).Some? && t in Run(steps).value.calls
    ensures var c := Run(steps).value.calls[t];
            && StrictlyIncreasing(c.attempted)
            && |c.attempted| <= c.budget + 1
            && FailuresOf(steps, t) <= |c.attempted|
            && DialsOf(steps, t) <= c.budget + 1
            && (c.point == Returned(OpenFailed) ==> |c.attempted| == FailuresOf(steps, t) == c.budget + 1)
            && (c.point == Returned(DialFailed) ==> |c.attempted| == FailuresOf(steps, t) <= c.budget)
            && (c.point.Returned? && c.point.outcome.Opened? ==> |c.attempted| == FailuresOf(steps, t) + 1)
  {
    RunKeepsInv(steps);
    FailuresAreCounted(steps, t);
    DialsAreCounted(steps, t);
    var s := Run(steps).value;
    assert CallInv(s.calls[t], s.shared);
  }

  /** What a call can still do on its own: the reconnects left, then the point it is at. */
  function StepsLeft(c: Call): nat {
    match c.point
    case Returned(_) => 0
    case Invalidating(_) => 5 * c.remaining + 1
    case Opening(_) => 5 * c.remaining + 2
    case Dialing => 5 * c.remaining + 3
    case AwaitDialLock => 5 * c.remaining + 4
    case Lookup => 5 * c.remaining + 5
  }

  function OwnSteps(steps: seq<Step>, t: CallId): nat
  {
    if steps == [] then 0
    else
      var (u, a) := steps[|steps| - 1];
      OwnSteps(steps[..|steps| - 1], t) + if u == t && !a.Spawn? then 1 else 0
  }

  /** Where only call `t` steps, all steps are its own. */
  lemma {:induction false} OwnStepsOfOne(steps: seq<Step>, t: CallId)
    requires forall i :: 0 <= i < |steps| ==> steps[i].0 == t && !steps[i].1.Spawn?
    ensures OwnSteps(steps, t) == |steps|
  {
    if steps != [] {
      OwnStepsOfOne(steps[..|steps| - 1], t);
    }
  }

  lemma StepUsesStep(s: System, t: CallId, u: CallId, a: Action)
    requires Enabled(s, u, a)
    ensures var after := Apply(s, u, a);
            var used := if u == t && !a.Spawn? then 1 else 0;
            if t !in after.calls then t !in s.calls && used == 0
            else if t in s.calls then
              after.calls[t].budget == s.calls[t].budget && StepsLeft(after.calls[t]) + used <= StepsLeft(s.calls[t])
            else used == 0 && StepsLeft(after.calls[t]) <= 5 * (after.calls[t].budget + 1)
  {
  }

  /** Every call returns within five steps of its own per round, however it is interleaved. */
  lemma {:induction false} OwnStepsAreBounded(steps: seq<Step>, t: CallId)
    requires Run(steps).Some?
    ensures t !in Run(steps).value.calls ==> OwnSteps(steps, t) == 0
    ensures t in Run(steps).value.calls ==>
            var c := Run(steps).value.calls[t];
            OwnSteps(steps, t) + StepsLeft(c) <= 5 * (c.budget + 1)
    decreases |steps|
  {
    if steps != [] {
      var front := steps[..|steps| - 1];
      var (u, a) := steps[|steps| - 1];
      OwnStepsAreBounded(front, t);
      StepUsesStep(Run(front).value, t, u, a);
    }
  }

  /** A running call is never stuck: it can step, or the call holding the lock can. */
  lemma NoDeadlock(steps: seq<Step>, t: CallId)
    requires Run(steps).Some? && IsRunning(Run(steps).value, t)
    ensures exists u, a :: Enabled(Run(steps).value, u, a) && a != Drop && !a.Spawn?
                           && (u == t || Run(steps).value.lock == Some(u))
  {
    RunKeepsInv(steps);
    var s := Run(steps).value;
    if s.lock.Some? {
      assert Enabled(s, s.lock.value, DialSucceeds);
    } else {
      match s.calls[t].point
      case Lookup => assert Enabled(s, t, LookUp);
      case AwaitDialLock => assert Enabled(s, t, LockForDial);
      case Dialing => assert false;
      case Opening(_) => assert Enabled(s, t, OpenSucceeds);
      case Invalidating(_) => assert Enabled(s, t, Invalidate);
    }
  }
}

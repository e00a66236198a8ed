/**
 The connection manager as the object its callers share, with its lock-protected fields. What
 the other callers do is a parameter: a schedule that says, for every history, which of their
 steps come before this call goes on.
 */
module OpenAiConnection {
  import opened Bytes
  import opened ConnectionProtocol

  // ---------------------------------------------------------------- one call among others

  predicate WaitsForLock(c: Call) {
    c.point.Lookup? || c.point.AwaitDialLock? || c.point.Invalidating?
  }

  /** Steps of other calls that can follow; a call that waits for the lock goes on only once it is free. */
  ghost predicate Fits(h: seq<Step>, others: seq<Step>, t: CallId)
  {
    && Run(h + others).Some?
    && (forall i :: 0 <= i < |others| ==> others[i].0 != t)
    && var s := Run(h + others).value;
       t in s.calls && WaitsForLock(s.calls[t]) ==> s.lock.None?
  }

  /** What the others do while call `t` waits, whatever happened before. */
  ghost predicate IsSchedule(others: seq<Step> -> seq<Step>, t: CallId) {
    forall h {:trigger others(h)} :: Run(h).Some? ==> Fits(h, others(h), t)
  }

  /** The others take their steps, then call `t` takes one. */
  function Then(h: seq<Step>, others: seq<Step> -> seq<Step>, t: CallId, a: Action): seq<Step> {
    (h + others(h)) + [(t, a)]
  }

  /** The step a call takes next; its dials succeed in the rounds `dialSucceeds`, its opens in the rounds `opens`. */
  function OwnAction(c: Call, dialSucceeds: set<nat>, opens: set<nat>): Action
    requires !c.point.Returned? && (c.point.Opening? ==> c.attempted != [])
  {
    match c.point
    case Lookup => LookUp
    case AwaitDialLock => LockForDial
    case Dialing => if |c.attempted| in dialSucceeds then DialSucceeds else DialFails
    case Opening(_) => if |c.attempted| - 1 in opens then OpenSucceeds else OpenFails
    case Invalidating(_) => Invalidate
  }

  lemma RunStep(h: seq<Step>, t: CallId, a: Action)
    requires Run(h).Some? && Enabled(Run(h).value, t, a)
    ensures Run(h + [(t, a)]) == Some(Apply(Run(h).value, t, a))
  {
    assert (h + [(t, a)])[..|h|] == h;
  }

  /** While a call waits it stays where it is, and once it holds the lock nothing shared changes. */
  lemma WaitKeepsCall(h: seq<Step>, others: seq<Step> -> seq<Step>, t: CallId)
    requires IsSchedule(others, t) && Run(h).Some? && t in Run(h).value.calls
    ensures Run(h + others(h)).Some?
    ensures var s, waited := Run(h).value, Run(h + others(h)).value;
            && t in waited.calls && waited.calls[t] == s.calls[t]
            && (WaitsForLock(s.calls[t]) ==> waited.lock.None?)
            && (s.calls[t].point.Dialing? ==> waited.shared == s.shared && waited.lock == Some(t))
            && (s.calls[t].point.Opening? ==> s.calls[t].attempted != [])
  {
    assert Fits(h, others(h), t);
    RunKeepsInv(h);
    assert CallInv(Run(h).value.calls[t], Run(h).value.shared);
    OthersInterfere(h, others(h), t);
  }

  lemma OwnStepFollows(h: seq<Step>, others: seq<Step> -> seq<Step>, t: CallId,
                       dialSucceeds: set<nat>, opens: set<nat>)
    requires IsSchedule(others, t) && Run(h).Some? && t in Run(h).value.calls
    requires var c := Run(h).value.calls[t]; !c.point.Returned? && (c.point.Opening? ==> c.attempted != [])
    ensures var c := Run(h).value.calls[t];
            var a := OwnAction(c, dialSucceeds, opens);
            var waited := Run(h + others(h));
            && waited.Some? && Enabled(waited.value, t, a)
            && Run(Then(h, others, t, a)) == Some(Apply(waited.value, t, a))
            && StepsLeft(Apply(waited.value, t, a).calls[t]) < StepsLeft(c)
  {
    WaitKeepsCall(h, others, t);
    var c, waited := Run(h).value.calls[t], Run(h + others(h)).value;
    var a := OwnAction(c, dialSucceeds, opens);
    RunStep(h + others(h), t, a);
    StepUsesStep(waited, t, t, a);
  }

  /** The history once call `t` has returned, if it and the schedule take turns. */
  ghost function CallRun(h: seq<Step>, others: seq<Step> -> seq<Step>, t: CallId,
                         dialSucceeds: set<nat>, opens: set<nat>): (r: seq<Step>)
    requires IsSchedule(others, t) && Run(h).Some? && t in Run(h).value.calls
    ensures Run(r).Some? && t in Run(r).value.calls && Run(r).value.calls[t].point.Returned?
    decreases StepsLeft(Run(h).value.calls[t])
  {
    var c := Run(h).value.calls[t];
    if c.point.Returned? then h
    else
      WaitKeepsCall(h, others, t);
      OwnStepFollows(h, others, t, dialSucceeds, opens);
      CallRun(Then(h, others, t, OwnAction(c, dialSucceeds, opens)), others, t, dialSucceeds, opens)
  }

  /** Somebody else's dial fails, if one is on: what the others may do if they do as little as they can. */
  function Quiet(t: CallId): seq<Step> -> seq<Step> {
    h =>
      if Run(h).Some? && Run(h).value.lock.Some? && Run(h).value.lock != Some(t) then
        [(Run(h).value.lock.value, DialFails)]
      else []
  }

  lemma QuietIsSchedule(t: CallId)
    ensures IsSchedule(Quiet(t), t)
  {
    forall h | Run(h).Some? ensures Fits(h, Quiet(t)(h), t) {
      RunKeepsInv(h);
      if Run(h).value.lock.Some? && Run(h).value.lock != Some(t) {
        RunStep(h, Run(h).value.lock.value, DialFails);
      } else {
        assert h + [] == h;
      }
    }
  }

  /** Where a turn leads. */
  lemma TurnTaken(h: seq<Step>, others: seq<Step> -> seq<Step>, t: CallId, dialSucceeds: set<nat>, opens: set<nat>)
    returns (next: seq<Step>)
    requires IsSchedule(others, t) && Run(h).Some? && t in Run(h).value.calls
    requires !Run(h).value.calls[t].point.Returned?
    ensures var c, waited := Run(h).value.calls[t], Run(h + others(h));
            && waited.Some? && t in waited.value.calls && waited.value.calls[t] == c
            && (c.point.Opening? ==> c.attempted != [])
            && var a := OwnAction(c, dialSucceeds, opens);
            && Enabled(waited.value, t, a)
            && next == Then(h, others, t, a) && Run(next) == Some(Apply(waited.value, t, a))
    ensures t in Run(next).value.calls
    ensures CallRun(h, others, t, dialSucceeds, opens) == CallRun(next, others, t, dialSucceeds, opens)
  {
    WaitKeepsCall(h, others, t);
    OwnStepFollows(h, others, t, dialSucceeds, opens);
    next := Then(h, others, t, OwnAction(Run(h).value.calls[t], dialSucceeds, opens));
  }

  /**
   A connection found at the first look is used: the call dials nothing and tries no other, and
   if its stream opens and the others do nothing, nothing that is shared has changed.
   */
  lemma LiveConnectionServes(h: seq<Step>, others: seq<Step> -> seq<Step>, t: CallId, budget: nat,
                             dialSucceeds: set<nat>, opens: set<nat>, id: nat)
    requires IsSchedule(others, t) && Run(h).Some? && t in Run(h).value.calls && 0 in opens
    requires Run(h).value.calls[t] == Call(budget, budget, Lookup, [], 0)
    requires Run(h + others(h)).Some? && Run(h + others(h)).value.shared.current == Some(id)
    ensures var looked := Then(h, others, t, LookUp);
            var r := CallRun(h, others, t, dialSucceeds, opens);
            && r == Then(looked, others, t, OpenSucceeds)
            && Run(r).value.calls[t] == Call(budget, budget, Returned(Opened(id)), [id], 0)
            && (others(h) == [] && others(looked) == [] ==> Run(r).value.shared == Run(h).value.shared)
  {
    var looked := TurnTaken(h, others, t, dialSucceeds, opens);
    var done := TurnTaken(looked, others, t, dialSucceeds, opens);
    assert h + [] == h && looked + [] == looked;
  }

  /**
   What a call that waited to dial gets, with what it found under the lock: it takes a
   connection that is there, and only without one it dials, once.
   */
  predicate DialLeads(found: Shared, succeeds: bool, id: Option<nat>, dialled: bool, left: Shared)
  {
    if found.current.Some? then !dialled && id == found.current && left == found
    else if succeeds then dialled && id == Some(found.nextId) && left == Installed(found)
    else dialled && id == None && left == found
  }

  /** Where a call stands that was given a connection, or none. */
  function AfterConnect(c: Call, id: Option<nat>, dialled: bool): Call {
    var counted := c.(dials := c.dials + if dialled then 1 else 0);
    if id.Some? then StartOpen(counted, id.value) else counted.(point := Returned(DialFailed))
  }

  /** Where it stands once a stream was tried on it. */
  function AfterTry(c: Call, id: Option<nat>, dialled: bool, ok: bool): Call {
    if id.None? then AfterConnect(c, id, dialled)
    else AfterConnect(c, id, dialled).(point := if ok then Returned(Opened(id.value)) else Invalidating(id.value))
  }

  /** Where it stands after a round: returned with that outcome, or looking again with one reconnect less. */
  function AfterRound(c: Call, id: Option<nat>, dialled: bool, outcome: Option<Outcome>): Call {
    Call(c.budget, if outcome.None? && c.remaining > 0 then c.remaining - 1 else c.remaining,
         if outcome.Some? then Returned(outcome.value) else Lookup,
         c.attempted + (if id.Some? then [id.value] else []), c.dials + if dialled then 1 else 0)
  }

  /** What ends a round how. */
  predicate RoundEnds(c: Call, id: Option<nat>, dialled: bool, outcome: Option<Outcome>,
                      dialSucceeds: set<nat>, opens: set<nat>)
  {
    match id
    case None => outcome == Some(DialFailed) && dialled && |c.attempted| !in dialSucceeds
    case Some(i) =>
      outcome ==
      if |c.attempted| in opens then Some(Opened(i)) else if c.remaining == 0 then Some(OpenFailed) else None
  }

  ghost predicate NoneBelow(rounds: set<nat>, n: nat) {
    forall i: nat :: i in rounds ==> n <= i
  }

  lemma OneMoreBelow(rounds: set<nat>, n: nat)
    requires NoneBelow(rounds, n) && n !in rounds
    ensures NoneBelow(rounds, n + 1)
  {
  }

  /**
   What a call that returned has to show: ids tried in increasing order, within the budget, each
   failing but for the one a stream was opened on.
   */
  ghost predicate Accounts(budget: nat, outcome: Outcome, attempted: seq<nat>, dials: nat,
                           dialSucceeds: set<nat>, opens: set<nat>)
  {
    && StrictlyIncreasing(attempted) && |attempted| <= budget + 1 && dials <= budget + 1
    && (forall i :: 0 <= i < |attempted| && i in opens ==> outcome.Opened? && i == |attempted| - 1)
    && match outcome
       case Opened(id) => attempted != [] && id == attempted[|attempted| - 1] && |attempted| - 1 in opens
       case OpenFailed => |attempted| == budget + 1
       case DialFailed => |attempted| <= budget && dials > 0 && |attempted| !in dialSucceeds
       case Dropped => false
  }

  lemma RoundAccounts(h: seq<Step>, t: CallId, c: Call, id: Option<nat>, dialled: bool, outcome: Outcome,
                      dialSucceeds: set<nat>, opens: set<nat>)
    requires Run(h).Some? && t in Run(h).value.calls
    requires Run(h).value.calls[t] == AfterRound(c, id, dialled, Some(outcome))
    requires RoundEnds(c, id, dialled, Some(outcome), dialSucceeds, opens) && NoneBelow(opens, |c.attempted|)
    ensures var after := AfterRound(c, id, dialled, Some(outcome));
            Accounts(c.budget, outcome, after.attempted, after.dials, dialSucceeds, opens)
  {
    RunKeepsInv(h);
    assert CallInv(AfterRound(c, id, dialled, Some(outcome)), Run(h).value.shared);
  }

  // --------------------------------------------------------------------------- the object

  class OpenAiConnectionManager {
    var current: Option<nat>
    var nextId: nat
    /** Every step taken so far, by any call, and where they lead. */
    var history: seq<Step>
    ghost var system: System

    function State(): Shared
      reads this
    {
      Shared(current, nextId)
    }

    /** The fields are as the machine leaves them after those steps. */
    ghost predicate Valid()
      reads this
    {
      Run(history) == Some(system) && system.shared == State()
    }

    ghost predicate IsCall(t: CallId, c: Call)
      reads this
    {
      t in system.calls && system.calls[t] == c
    }

    constructor ()
      ensures Valid() && history == []
    {
      current, nextId, history := None, 1, [];
      system := START;
    }

    /** The others take their steps. */
    method Await(others: seq<Step> -> seq<Step>, t: CallId)
      requires Valid() && IsSchedule(others, t)
      modifies this
      ensures Valid() && history == old(history) + others(old(history))
    {
      assert Fits(history, others(history), t);
      history := history + others(history);
      var shared := Run(history).value.shared;
      current, nextId := shared.current, shared.nextId;
      system := Run(history).value;
    }

    /** The call takes a step, which the fields already show. */
    ghost method Record(t: CallId, a: Action)
      requires Run(history) == Some(system) && Enabled(system, t, a) && State() == Apply(system, t, a).shared
      modifies this`system
      ensures Run(history + [(t, a)]) == Some(system) && system == Apply(old(system), t, a)
    {
      RunStep(history, t, a);
      system := Apply(system, t, a);
    }

    /** The dial itself, under the lock: the others change nothing meanwhile. */
    method Connect(others: seq<Step> -> seq<Step>, t: CallId, succeeds: bool, ghost dialSucceeds: set<nat>,
                   ghost opens: set<nat>, ghost c: Call)
      requires Valid() && IsSchedule(others, t)
      requires IsCall(t, c) && c.point.Dialing? && (succeeds <==> |c.attempted| in dialSucceeds)
      modifies this
      ensures Valid() && t in system.calls
      ensures CallRun(history, others, t, dialSucceeds, opens) == old(CallRun(history, others, t, dialSucceeds, opens))
      ensures State() == if succeeds then Installed(old(State())) else old(State())
      ensures IsCall(t, if succeeds then StartOpen(c, old(nextId)) else c.(point := Returned(DialFailed)))
    {
      ghost var next := TurnTaken(history, others, t, dialSucceeds, opens);
      WaitKeepsCall(history, others, t);
      Await(others, t);
      if succeeds {
        var id := nextId;
        nextId := nextId + 1;
        current := Some(id);
      }
      Record(t, if succeeds then DialSucceeds else DialFails);
      history := history + [(t, if succeeds then DialSucceeds else DialFails)];
    }

    /**
     Dials unless a connection appeared meanwhile. What is found under the lock decides; it is
     held throughout, so the others change nothing while the dial is under way.
     */
    method Dial(others: seq<Step> -> seq<Step>, t: CallId, succeeds: bool, ghost dialSucceeds: set<nat>,
                ghost opens: set<nat>, ghost c: Call)
      returns (id: Option<nat>, dialled: bool)
      requires Valid() && IsSchedule(others, t)
      requires IsCall(t, c) && c.point.AwaitDialLock? && (succeeds <==> |c.attempted| in dialSucceeds)
      modifies this
      ensures Valid() && t in system.calls
      ensures CallRun(history, others, t, dialSucceeds, opens) == old(CallRun(history, others, t, dialSucceeds, opens))
      ensures Run(old(history) + others(old(history))).Some?
      ensures DialLeads(Run(old(history) + others(old(history))).value.shared, succeeds, id, dialled, State())
      ensures IsCall(t, AfterConnect(c, id, dialled))
    {
      ghost var next := TurnTaken(history, others, t, dialSucceeds, opens);
      Await(others, t);
      Record(t, LockForDial);
      history := history + [(t, LockForDial)];
      if current.Some? {
        return current, false;
      }
      Connect(others, t, succeeds, dialSucceeds, opens, system.calls[t]);
      return current, true;
    }

    /** The current connection if the first look finds one, else what `Dial` finds or makes. */
    method Connection(others: seq<Step> -> seq<Step>, t: CallId, succeeds: bool, ghost dialSucceeds: set<nat>,
                      ghost opens: set<nat>, ghost c: Call)
      returns (id: Option<nat>, dialled: bool)
      requires Valid() && IsSchedule(others, t)
      requires IsCall(t, c) && c.point.Lookup? && (succeeds <==> |c.attempted| in dialSucceeds)
      modifies this
      ensures Valid() && t in system.calls
      ensures CallRun(history, others, t, dialSucceeds, opens) == old(CallRun(history, others, t, dialSucceeds, opens))
      ensures var looked := Then(old(history), others, t, LookUp);
              Run(old(history) + others(old(history))).Some? && Run(looked + others(looked)).Some?
      ensures var looked := Then(old(history), others, t, LookUp);
              var found := Run(old(history) + others(old(history))).value.shared;
              var again := Run(looked + others(looked)).value.shared;
              if found.current.Some? then !dialled && id == found.current && State() == found
              else DialLeads(again, succeeds, id, dialled, State())
      ensures IsCall(t, AfterConnect(c, id, dialled))
    {
      ghost var next := TurnTaken(history, others, t, dialSucceeds, opens);
      Await(others, t);
      Record(t, LookUp);
      history := history + [(t, LookUp)];
      assert Fits(history, others(history), t);
      if current.Some? {
        return current, false;
      }
      id, dialled := Dial(others, t, succeeds, dialSucceeds, opens, c.(point := AwaitDialLock));
    }

    /** Clears the current connection if it still is the one that failed. */
    method Invalidate(others: seq<Step> -> seq<Step>, t: CallId, id: nat, ghost dialSucceeds: set<nat>,
                      ghost opens: set<nat>, ghost c: Call)
      requires Valid() && IsSchedule(others, t)
      requires IsCall(t, c) && c.point == Invalidating(id)
      modifies this
      ensures Valid() && t in system.calls
      ensures CallRun(history, others, t, dialSucceeds, opens) == old(CallRun(history, others, t, dialSucceeds, opens))
      ensures Run(old(history) + others(old(history))).Some?
      ensures State() == Cleared(Run(old(history) + others(old(history))).value.shared, id)
      ensures IsCall(t, AfterInvalidate(c))
    {
      ghost var next := TurnTaken(history, others, t, dialSucceeds, opens);
      Await(others, t);
      if current.Some? && current.value == id {
        current := None;
      }
      Record(t, Action.Invalidate);
      history := history + [(t, Action.Invalidate)];
    }

    /** Opens a stream on the connection. */
    method OpenBi(others: seq<Step> -> seq<Step>, t: CallId, id: nat, succeeds: bool,
                  ghost dialSucceeds: set<nat>, ghost opens: set<nat>, ghost c: Call)
      requires Valid() && IsSchedule(others, t)
      requires IsCall(t, c) && c.point == Opening(id) && (succeeds <==> |c.attempted| - 1 in opens)
      modifies this
      ensures Valid() && t in system.calls
      ensures CallRun(history, others, t, dialSucceeds, opens) == old(CallRun(history, others, t, dialSucceeds, opens))
      ensures IsCall(t, c.(point := if succeeds then Returned(Opened(id)) else Invalidating(id)))
    {
      ghost var next := TurnTaken(history, others, t, dialSucceeds, opens);
      Await(others, t);
      Record(t, if succeeds then OpenSucceeds else OpenFails);
      history := history + [(t, if succeeds then OpenSucceeds else OpenFails)];
    }

    /** A connection, and a stream tried on it. */
    method TryOnce(others: seq<Step> -> seq<Step>, t: CallId, round: nat, dialSucceeds: set<nat>, opens: set<nat>,
                   ghost c: Call)
      returns (id: Option<nat>, dialled: bool)
      requires Valid() && IsSchedule(others, t)
      requires IsCall(t, c) && c.point.Lookup? && round == |c.attempted|
      modifies this
      ensures Valid() && t in system.calls
      ensures CallRun(history, others, t, dialSucceeds, opens) == old(CallRun(history, others, t, dialSucceeds, opens))
      ensures IsCall(t, AfterTry(c, id, dialled, round in opens))
      ensures id.None? ==> dialled && round !in dialSucceeds
    {
      id, dialled := Connection(others, t, round in dialSucceeds, dialSucceeds, opens, c);
      if id.Some? {
        OpenBi(others, t, id.value, round in opens, dialSucceeds, opens, AfterConnect(c, id, dialled));
      }
    }

    /** One round: a stream is tried on a connection, and a failed one costs the connection and a reconnect. */
    method Round(others: seq<Step> -> seq<Step>, t: CallId, round: nat, remaining: nat,
                 dialSucceeds: set<nat>, opens: set<nat>, ghost c: Call)
      returns (outcome: Option<Outcome>, id: Option<nat>, dialled: bool)
      requires Valid() && IsSchedule(others, t)
      requires IsCall(t, c) && c.point.Lookup? && c.remaining == remaining && round == |c.attempted|
      modifies this
      ensures Valid() && t in system.calls
      ensures CallRun(history, others, t, dialSucceeds, opens) == old(CallRun(history, others, t, dialSucceeds, opens))
      ensures IsCall(t, AfterRound(c, id, dialled, outcome))
      ensures RoundEnds(c, id, dialled, outcome, dialSucceeds, opens)
    {
      id, dialled := TryOnce(others, t, round, dialSucceeds, opens, c);
      if id.None? {
        return Some(DialFailed), id, dialled;
      }
      if round in opens {
        return Some(Opened(id.value)), id, dialled;
      }
      Invalidate(others, t, id.value, dialSucceeds, opens, AfterTry(c, id, dialled, false));
      outcome := if remaining == 0 then Some(OpenFailed) else None;
    }

    /**
     Opens a stream, reconnecting at most `budget` times. `attempted` lists the connections a
     stream was tried on, `dials` counts the dials made on the way. The steps taken are those
     of one call of the machine, in turn with the others and nothing else.
     */
    method OpenBiWithReconnect(others: seq<Step> -> seq<Step>, t: CallId, budget: nat,
                               dialSucceeds: set<nat>, opens: set<nat>)
      returns (outcome: Outcome, attempted: seq<nat>, dials: nat)
      requires Valid() && IsSchedule(others, t) && t !in system.calls
      modifies this
      ensures Valid()
      ensures var spawned := old(history) + [(t, Spawn(budget))];
              && Run(spawned).Some? && t in Run(spawned).value.calls
              && history == CallRun(spawned, others, t, dialSucceeds, opens)
      ensures exists left: nat :: IsCall(t, Call(budget, left, Returned(outcome), attempted, dials))
      ensures Accounts(budget, outcome, attempted, dials, dialSucceeds, opens)
    {
      Record(t, Spawn(budget));
      history := history + [(t, Spawn(budget))];
      ghost var spawned := history;
      var remaining := budget;
      attempted, dials := [], 0;
      while true
        invariant Valid() && 0 <= remaining <= budget
        invariant IsCall(t, Call(budget, remaining, Lookup, attempted, dials))
        invariant CallRun(history, others, t, dialSucceeds, opens) == CallRun(spawned, others, t, dialSucceeds, opens)
        invariant NoneBelow(opens, |attempted|)
        decreases remaining
      {
        ghost var c := Call(budget, remaining, Lookup, attempted, dials);
        var ended, id, dialled := Round(others, t, |attempted|, remaining, dialSucceeds, opens, c);
        dials := dials + if dialled then 1 else 0;
        attempted := attempted + if id.Some? then [id.value] else [];
        if ended.Some? {
          RoundAccounts(history, t, c, id, dialled, ended.value, dialSucceeds, opens);
          return ended.value, attempted, dials;
        }
        OneMoreBelow(opens, |c.attempted|);
        remaining := remaining - 1;
      }
    }
  }
}

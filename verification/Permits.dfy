/**
 The accept loops of the servers: a permit for each connection, released when its task ends,
 and for each connection a permit for each stream, released when the stream's own task ends.
 Any number of connections and streams interleave.
 */
module Permits {
  import opened Bytes

  type Peer = nat

  datatype Limits = Limits(connections: nat, streams: nat, allowPeers: seq<Peer>) {
    /** An empty list allows everyone. */
    predicate Allows(peer: Peer) {
      allowPeers == [] || peer in allowPeers
    }
  }

  datatype Phase = Accepting | Serving | Closed

  /** `active` stream handlers run; they may go on after the connection is closed. */
  datatype Connection = Connection(peer: Peer, phase: Phase, freeStreams: nat, active: nat)

  /** `handled` lists the peers whose streams reached the handler. */
  datatype Server = Server(
    free: nat, connections: seq<Connection>,
    arrived: nat, refused: nat, handled: seq<Peer>, finished: nat)

  datatype Step =
    | Incoming(peer: Peer)
    | AcceptFails(id: nat)
    | Accepted(id: nat)
    | StreamArrives(id: nat)
    | StreamEnds(id: nat)
    | ConnectionEnds(id: nat)

  function Start(limits: Limits): Server {
    Server(limits.connections, [], 0, 0, [], 0)
  }

  predicate Enabled(s: Server, step: Step)
  {
    match step
    case Incoming(_) => true
    case AcceptFails(id) => id < |s.connections| && s.connections[id].phase.Accepting?
    case Accepted(id) => id < |s.connections| && s.connections[id].phase.Accepting?
    case StreamArrives(id) => id < |s.connections| && s.connections[id].phase.Serving?
    case StreamEnds(id) => id < |s.connections| && s.connections[id].active > 0
    case ConnectionEnds(id) => id < |s.connections| && s.connections[id].phase.Serving?
  }

  /** An incoming connection or stream that finds no permit is turned away. */
  function Apply(limits: Limits, s: Server, step: Step): Server
    requires Enabled(s, step)
  {
    match step
    case Incoming(peer) =>
      if s.free == 0 then s
      else s.(free := s.free - 1, connections := s.connections + [Connection(peer, Accepting, limits.streams, 0)])
    case AcceptFails(id) => Release(s, id)
    case Accepted(id) =>
      if limits.Allows(s.connections[id].peer)
      then s.(connections := s.connections[id := s.connections[id].(phase := Serving)])
      else Release(s, id)
    case StreamArrives(id) =>
      var c := s.connections[id];
      if c.freeStreams == 0 then s.(arrived := s.arrived + 1, refused := s.refused + 1)
      else s.(arrived := s.arrived + 1, handled := s.handled + [c.peer],
              connections := s.connections[id := c.(freeStreams := c.freeStreams - 1, active := c.active + 1)])
    case StreamEnds(id) =>
      var c := s.connections[id];
      s.(finished := s.finished + 1,
         connections := s.connections[id := c.(freeStreams := c.freeStreams + 1, active := c.active - 1)])
    case ConnectionEnds(id) => Release(s, id)
  }

  function Release(s: Server, id: nat): Server
    requires id < |s.connections|
  {
    s.(free := s.free + 1, connections := s.connections[id := s.connections[id].(phase := Closed)])
  }

  function Run(limits: Limits, steps: seq<Step>): Option<Server>
  {
    if steps == [] then Some(Start(limits))
    else
      match Run(limits, steps[..|steps| - 1])
      case None => None
      case Some(s) =>
        if Enabled(s, steps[|steps| - 1]) then Some(Apply(limits, s, steps[|steps| - 1])) else None
  }

  // --------------------------------------------------------------------- what is counted

  /** The permits a connection holds. */
  function Permit(c: Connection): nat {
    if c.phase.Closed? then 0 else 1
  }

  function HeldPermits(cs: seq<Connection>): nat
  {
    if cs == [] then 0 else HeldPermits(cs[..|cs| - 1]) + Permit(cs[|cs| - 1])
  }

  /** All running handlers. */
  function Handlers(cs: seq<Connection>): nat
  {
    if cs == [] then 0 else Handlers(cs[..|cs| - 1]) + cs[|cs| - 1].active
  }

  /** The running handlers of connections that still hold their permit. */
  function LiveHandlers(cs: seq<Connection>): nat
  {
    if cs == [] then 0
    else LiveHandlers(cs[..|cs| - 1]) + (if cs[|cs| - 1].phase.Closed? then 0 else cs[|cs| - 1].active)
  }

  lemma {:induction false} CountsOfUpdate(cs: seq<Connection>, id: nat, c: Connection)
    requires id < |cs|
    ensures HeldPermits(cs[id := c]) == HeldPermits(cs) - Permit(cs[id]) + Permit(c)
    ensures Handlers(cs[id := c]) == Handlers(cs) - cs[id].active + c.active
  {
    var last := |cs| - 1;
    if id == last {
      assert cs[id := c][..last] == cs[..last];
    } else {
      assert cs[id := c][..last] == cs[..last][id := c];
      CountsOfUpdate(cs[..last], id, c);
    }
  }

  lemma CountsOfAppend(cs: seq<Connection>, c: Connection)
    ensures HeldPermits(cs + [c]) == HeldPermits(cs) + Permit(c)
    ensures Handlers(cs + [c]) == Handlers(cs) + c.active
  {
    assert (cs + [c])[..|cs|] == cs;
  }

  // ----------------------------------------------------------------------- the invariant

  ghost predicate ConnectionInv(limits: Limits, c: Connection)
  {
    && c.freeStreams + c.active == limits.streams
    && (c.phase.Accepting? ==> c.active == 0)
    && (c.phase.Serving? || c.active > 0 ==> limits.Allows(c.peer))
  }

  ghost predicate Inv(limits: Limits, s: Server)
  {
    && s.free + HeldPermits(s.connections) == limits.connections
    && (forall i :: 0 <= i < |s.connections| ==> ConnectionInv(limits, s.connections[i]))
    && (forall i :: 0 <= i < |s.handled| ==> limits.Allows(s.handled[i]))
    && s.arrived == s.refused + |s.handled|
    && |s.handled| == s.finished + Handlers(s.connections)
  }

  /** A step that changes one connection keeps the invariant if the counters move with it. */
  lemma ChangeKeepsInv(limits: Limits, s: Server, id: nat, c: Connection, t: Server)
    requires Inv(limits, s) && id < |s.connections| && ConnectionInv(limits, c)
    requires t.connections == s.connections[id := c]
    requires t.free + Permit(c) == s.free + Permit(s.connections[id])
    requires t.arrived == t.refused + |t.handled|
    requires |t.handled| - t.finished - c.active == |s.handled| - s.finished - s.connections[id].active
    requires t.handled == s.handled || (t.handled == s.handled + [c.peer] && limits.Allows(c.peer))
    ensures Inv(limits, t)
  {
    CountsOfUpdate(s.connections, id, c);
  }

  lemma StepKeepsInv(limits: Limits, s: Server, step: Step)
    requires Inv(limits, s) && Enabled(s, step)
    ensures Inv(limits, Apply(limits, s, step))
  {
    var t := Apply(limits, s, step);
    if step.Incoming? {
      CountsOfAppend(s.connections, Connection(step.peer, Accepting, limits.streams, 0));
    } else {
      assert ConnectionInv(limits, s.connections[step.id]);
      if t.connections != s.connections {
        ChangeKeepsInv(limits, s, step.id, t.connections[step.id], t);
      }
    }
  }

  /**
   In every reachable state free and held permits add up to the limit, for connections and,
   per connection, for streams; only streams of allowed peers were handled; every stream that
   arrived was handled or refused, and every one handled is finished or still runs.
   */
  lemma {:induction false} RunKeepsInv(limits: Limits, steps: seq<Step>)
    requires Run(limits, steps).Some?
    ensures Inv(limits, Run(limits, steps).value)
  {
    if steps != [] {
      var last := |steps| - 1;
      RunKeepsInv(limits, steps[..last]);
      StepKeepsInv(limits, Run(limits, steps[..last]).value, steps[last]);
    }
  }

  /** A stream is refused exactly when its connection has all its handlers running. */
  lemma RefusedIffFull(limits: Limits, steps: seq<Step>, id: nat)
    requires Run(limits, steps).Some? && Enabled(Run(limits, steps).value, StreamArrives(id))
    ensures var s := Run(limits, steps).value;
            Apply(limits, s, StreamArrives(id)).handled == s.handled <==> s.connections[id].active == limits.streams
  {
    RunKeepsInv(limits, steps);
    assert ConnectionInv(limits, Run(limits, steps).value.connections[id]);
  }

  lemma Distributes(a: nat, b: nat, factor: nat)
    ensures (a + b) * factor == a * factor + b * factor
  {
  }

  lemma {:induction false} LiveHandlersBounded(limits: Limits, cs: seq<Connection>)
    requires forall i :: 0 <= i < |cs| ==> ConnectionInv(limits, cs[i])
    ensures LiveHandlers(cs) <= HeldPermits(cs) * limits.streams
  {
    if cs != [] {
      var last := |cs| - 1;
      LiveHandlersBounded(limits, cs[..last]);
      assert ConnectionInv(limits, cs[last]) && cs[last].active <= limits.streams;
      Distributes(HeldPermits(cs[..last]), Permit(cs[last]), limits.streams);
    }
  }

  /** The product of the limits bounds the handlers of connections still being served, */
  lemma LiveHandlersWithinProduct(limits: Limits, steps: seq<Step>)
    requires Run(limits, steps).Some?
    ensures LiveHandlers(Run(limits, steps).value.connections) <= limits.connections * limits.streams
  {
    RunKeepsInv(limits, steps);
    var cs := Run(limits, steps).value.connections;
    LiveHandlersBounded(limits, cs);
    Monotone(HeldPermits(cs), limits.connections, limits.streams);
  }

  lemma Monotone(a: nat, b: nat, factor: nat)
    requires a <= b
    ensures a * factor <= b * factor
  {
  }

  /** One more connection, closed while its one stream is still being handled. */
  function Round(steps: seq<Step>, peer: Peer, id: nat): seq<Step> {
    steps + [Incoming(peer)] + [Accepted(id)] + [StreamArrives(id)] + [ConnectionEnds(id)]
  }

  function Rounds(peer: Peer, n: nat): seq<Step>
  {
    if n == 0 then [] else Round(Rounds(peer, n - 1), peer, n - 1)
  }

  function AfterRound(limits: Limits, s: Server, peer: Peer): Server
    requires limits.streams > 0
  {
    s.(connections := s.connections + [Connection(peer, Closed, limits.streams - 1, 1)],
       arrived := s.arrived + 1, handled := s.handled + [peer])
  }

  lemma OneRound(limits: Limits, s: Server, peer: Peer)
    requires s.free > 0 && limits.streams > 0 && limits.Allows(peer)
    ensures var id := |s.connections|;
            var s1 := Apply(limits, s, Incoming(peer));
            && Enabled(s1, Accepted(id))
            && var s2 := Apply(limits, s1, Accepted(id));
            && Enabled(s2, StreamArrives(id))
            && var s3 := Apply(limits, s2, StreamArrives(id));
            && Enabled(s3, ConnectionEnds(id))
            && Apply(limits, s3, ConnectionEnds(id)) == AfterRound(limits, s, peer)
  {
    var cs := s.connections;
    UpdateLast(cs, Connection(peer, Accepting, limits.streams, 0), Connection(peer, Serving, limits.streams, 0));
    UpdateLast(cs, Connection(peer, Serving, limits.streams, 0), Connection(peer, Serving, limits.streams - 1, 1));
    UpdateLast(cs, Connection(peer, Serving, limits.streams - 1, 1), Connection(peer, Closed, limits.streams - 1, 1));
  }

  lemma UpdateLast(cs: seq<Connection>, before: Connection, after: Connection)
    ensures (cs + [before])[|cs| := after] == cs + [after]
  {
  }

  lemma RunOneMore(limits: Limits, steps: seq<Step>, s: Server, step: Step)
    requires Run(limits, steps) == Some(s) && Enabled(s, step)
    ensures Run(limits, steps + [step]) == Some(Apply(limits, s, step))
  {
    assert (steps + [step])[..|steps|] == steps;
  }

  lemma RunRound(limits: Limits, steps: seq<Step>, s: Server, peer: Peer)
    requires Run(limits, steps) == Some(s) && s.free > 0 && limits.streams > 0 && limits.Allows(peer)
    ensures Run(limits, Round(steps, peer, |s.connections|)) == Some(AfterRound(limits, s, peer))
  {
    OneRound(limits, s, peer);
    var id := |s.connections|;
    var s1 := Apply(limits, s, Incoming(peer));
    var s2 := Apply(limits, s1, Accepted(id));
    var s3 := Apply(limits, s2, StreamArrives(id));
    var steps1 := steps + [Incoming(peer)];
    RunOneMore(limits, steps, s, Incoming(peer));
    RunOneMore(limits, steps1, s1, Accepted(id));
    RunOneMore(limits, steps1 + [Accepted(id)], s2, StreamArrives(id));
    RunOneMore(limits, steps1 + [Accepted(id)] + [StreamArrives(id)], s3, ConnectionEnds(id));
  }

  /** but nothing bounds all handlers: they outlive their connection's permit. */
  lemma {:induction false} HandlersAreUnbounded(limits: Limits, peer: Peer, n: nat)
    requires limits.connections > 0 && limits.streams > 0 && limits.Allows(peer)
    ensures Run(limits, Rounds(peer, n)).Some?
    ensures var s := Run(limits, Rounds(peer, n)).value;
            s.free == limits.connections && |s.connections| == n && Handlers(s.connections) == n
  {
    if n > 0 {
      HandlersAreUnbounded(limits, peer, n - 1);
      var s := Run(limits, Rounds(peer, n - 1)).value;
      RunRound(limits, Rounds(peer, n - 1), s, peer);
      CountsOfAppend(s.connections, Connection(peer, Closed, limits.streams - 1, 1));
    }
  }

  /** Permits are never lost: once every task has ended, all are free again. */
  lemma AllPermitsReturn(limits: Limits, steps: seq<Step>)
    requires Run(limits, steps).Some?
    requires var cs := Run(limits, steps).value.connections;
             forall i :: 0 <= i < |cs| ==> cs[i].phase.Closed? && cs[i].active == 0
    ensures var s := Run(limits, steps).value;
            && s.free == limits.connections
            && forall i :: 0 <= i < |s.connections| ==> s.connections[i].freeStreams == limits.streams
  {
    RunKeepsInv(limits, steps);
    NoneHeld(Run(limits, steps).value.connections);
    var cs := Run(limits, steps).value.connections;
    forall i | 0 <= i < |cs| ensures cs[i].freeStreams == limits.streams {
      assert ConnectionInv(limits, cs[i]);
    }
  }

  lemma {:induction false} NoneHeld(cs: seq<Connection>)
    requires forall i :: 0 <= i < |cs| ==> cs[i].phase.Closed?
    ensures HeldPermits(cs) == 0
  {
    if cs != [] {
      NoneHeld(cs[..|cs| - 1]);
    }
  }

  /** An empty list lets everyone in, any other just the peers it lists. */
  lemma OnlyAllowedPeersAreServed(limits: Limits, steps: seq<Step>, id: nat)
    requires Run(limits, steps).Some? && Enabled(Run(limits, steps).value, Accepted(id))
    ensures var s := Run(limits, steps).value;
            var peer := s.connections[id].peer;
            && (forall i :: 0 <= i < |s.handled| && limits.allowPeers != [] ==> s.handled[i] in limits.allowPeers)
            && Apply(limits, s, Accepted(id)).connections[id].phase ==
               if limits.allowPeers == [] || peer in limits.allowPeers then Serving else Closed
  {
    RunKeepsInv(limits, steps);
  }

  // ------------------------------------------------------------------- tasks can always end

  /** The steps it takes to end every task of a connection. */
  function TasksOf(c: Connection): nat {
    c.active + Permit(c)
  }

  /** Ending one task: a stream's, or the connection's own. */
  function EndOf(c: Connection, id: nat): Step {
    if c.active > 0 then StreamEnds(id) else if c.phase.Serving? then ConnectionEnds(id) else AcceptFails(id)
  }

  lemma OneTaskEnds(limits: Limits, s: Server, id: nat)
    requires Inv(limits, s) && id < |s.connections| && TasksOf(s.connections[id]) > 0
    ensures Enabled(s, EndOf(s.connections[id], id))
    ensures var t := Apply(limits, s, EndOf(s.connections[id], id));
            && HeldPermits(t.connections) + Handlers(t.connections) + 1
               == HeldPermits(s.connections) + Handlers(s.connections)
  {
    var t := Apply(limits, s, EndOf(s.connections[id], id));
    CountsOfUpdate(s.connections, id, t.connections[id]);
  }

  lemma {:induction false} SomeTask(cs: seq<Connection>) returns (id: nat)
    requires HeldPermits(cs) + Handlers(cs) > 0
    ensures id < |cs| && TasksOf(cs[id]) > 0
  {
    id := |cs| - 1;
    if TasksOf(cs[id]) == 0 {
      id := SomeTask(cs[..id]);
    }
  }

  lemma {:induction false} NoTask(cs: seq<Connection>)
    requires HeldPermits(cs) + Handlers(cs) == 0
    ensures forall i :: 0 <= i < |cs| ==> cs[i].phase.Closed? && cs[i].active == 0
  {
    if cs != [] {
      NoTask(cs[..|cs| - 1]);
    }
  }

  /** Whatever has happened, every task can still end, and then every permit is free. */
  lemma {:induction false} EveryTaskCanEnd(limits: Limits, steps: seq<Step>) returns (more: seq<Step>)
    requires Run(limits, steps).Some?
    ensures steps <= more && Run(limits, more).Some?
    ensures var s := Run(limits, more).value;
            && s.free == limits.connections
            && forall i :: 0 <= i < |s.connections| ==>
                 s.connections[i].active == 0 && s.connections[i].freeStreams == limits.streams
    decreases var s := Run(limits, steps).value; HeldPermits(s.connections) + Handlers(s.connections)
  {
    var s := Run(limits, steps).value;
    RunKeepsInv(limits, steps);
    if HeldPermits(s.connections) + Handlers(s.connections) == 0 {
      NoTask(s.connections);
      AllPermitsReturn(limits, steps);
      more := steps;
    } else {
      var id := SomeTask(s.connections);
      var step := EndOf(s.connections[id], id);
      OneTaskEnds(limits, s, id);
      RunOneMore(limits, steps, s, step);
      more := EveryTaskCanEnd(limits, steps + [step]);
    }
  }

  /** While no connection is closed, the handlers of served connections are all there are. */
  lemma {:induction false} LiveHandlersAreHandlers(cs: seq<Connection>)
    requires forall i :: 0 <= i < |cs| ==> !cs[i].phase.Closed?
    ensures LiveHandlers(cs) == Handlers(cs)
  {
    if cs != [] {
      LiveHandlersAreHandlers(cs[..|cs| - 1]);
    }
  }
}

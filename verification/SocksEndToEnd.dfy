/** The handlers of both ends of a SOCKS connection together, as a run of the state machine. */
module SocksEndToEnd {
  import opened Bytes
  import opened Socks5
  import opened Tunnel
  import opened SocksTunnel
  import opened SocksHandlers

  /**
   How the two handlers left a connection: what each returned and wrote, and all the bytes
   that each direction of the tunnel stream delivers in the end.
   */
  datatype Exchange = Exchange(
    clientEvents: ClientEvents, sent: bool, relaying: bool, toApp: seq<byte>, up: seq<byte>, upStream: seq<byte>,
    policy: Policy, serverEvents: ServerEvents, dialled: Option<SocketAddr>, serving: bool,
    down: seq<byte>, downStream: seq<byte>)

  /**
   Each handler kept its contract. A direction delivers what its handler wrote, and behind it
   nothing but what the relay copies.
   */
  ghost predicate Exchanged(app: seq<byte>, target: seq<byte>, x: Exchange)
  {
    && ClientOutcome(app, x.downStream, x.clientEvents, x.sent, x.relaying, x.toApp, x.up)
    && ServerOutcome(x.upStream, x.policy, x.serverEvents, x.dialled, x.serving, x.down)
    && x.up <= x.upStream <= x.up + (if x.relaying then Payload(app) else [])
    && x.down <= x.downStream <= x.down + (if x.serving then target else [])
  }

  /** A state of the machine that is just as the handlers left the connection. */
  predicate Agrees(s: Session, app: seq<byte>, target: seq<byte>, x: Exchange) {
    && s.app == app && s.target == target
    && s.toApp == x.toApp && s.up == x.up && s.down == x.down && s.toTarget == []
    && s.client == (if x.relaying then Relaying else ClientPhase.Stopped)
    && s.server == (if x.serving then Serving else Gone)
    && (x.relaying ==> Handshake(app).Some? && s.appRead == Handshake(app).value.1 && s.downRead == 8)
    && (x.serving ==> s.upRead == |RequestPart(app)| && s.targetRead == 0)
  }

  /** Whether the client got so far as to read a status. */
  predicate ReadsStatus(sent: bool, down: seq<byte>, events: ClientEvents) {
    sent && events.open.Completes? && !events.statusTimesOut && ResponseOutcome(down).Ok?
  }

  lemma ReplyIsStatusOrFailure(sent: bool, down: seq<byte>, events: ClientEvents)
    ensures var code := ReplyFor(sent, down, events);
            if ReadsStatus(sent, down, events) then ResponseOutcome(down) == Ok(code)
            else code in FAILURES && code != Succeeded
  {
    assert FAILURES[0] == GeneralFailure && FAILURES[1] == TtlExpired;
  }

  lemma ErrorReplyIsFailure(error: SocksError)
    ensures ErrorReply(error) in FAILURES && ErrorReply(error) != Succeeded
  {
    assert FAILURES[0] == GeneralFailure && FAILURES[2] == CommandNotSupported
           && FAILURES[3] == AddressTypeNotSupported;
  }

  // --------------------------------------------------------------------- the server

  lemma AnswerReached(s: Session, code: ReplyCode, established: bool, down: seq<byte>) returns (t: Session)
    requires Reaches(s) && s.server.Connecting? && s.down == [] && down <= ResponseBytes(code)
    requires established ==> code == Succeeded && down == ResponseBytes(Succeeded)
    ensures Reaches(t)
    ensures t == s.(server := if established then Serving else Gone, verdict := t.verdict, down := down,
                    downEnded := t.downEnded)
  {
    assert [] + down == down && s.toTarget + [] == s.toTarget;
    if code != Succeeded {
      t := Step(s, Server(Refuse(code, down)));
    } else if established {
      t := Step(s, Server(Connected));
    } else {
      t := Step(s, Server(ServerStops([], down, true)));
    }
  }

  /** A refusal is never a success: only an address that was connected to is. */
  lemma AnswerMeaning(dialled: Option<SocketAddr>, request: ConnectRequest, events: ServerEvents)
    ensures AnswerCode(dialled, request, events) == Succeeded <==> dialled.Some? && events.connect.ConnectsTo?
  {
  }

  /** However the server's handler ends, the machine's server can end so too. */
  lemma ServerOutcomeReached(s: Session, stream: seq<byte>, policy: Policy, events: ServerEvents,
                             dialled: Option<SocketAddr>, established: bool, down: seq<byte>) returns (t: Session)
    requires Reaches(s) && s.server.AwaitRequest? && s.down == [] && s.upRead == 0
    requires s.up <= UpAll(s.app) && stream <= UpAll(s.app)
    requires RequestOutcome(stream).Ok? ==> RequestOutcome(s.up).Ok?
    requires ServerOutcome(stream, policy, events, dialled, established, down)
    ensures Reaches(t)
    ensures t == s.(server := if established then Serving else Gone, upRead := t.upRead, verdict := t.verdict,
                    down := down, downEnded := t.downEnded)
    ensures established ==> t.upRead == |RequestPart(s.app)|
  {
    if events.requestTimesOut || RequestOutcome(stream).Err? {
      assert [] + down == down && s.toTarget + [] == s.toTarget;
      t := Step(s, Server(ServerStops([], [], true)));
    } else {
      RequestReadIsAsked(s.app, stream);
      RequestReadIsAsked(s.app, s.up);
      AnswerMeaning(dialled, Handshake(s.app).value.0, events);
      t := Step(s, Server(ReadRequest));
      t := AnswerReached(t, AnswerCode(dialled, Handshake(s.app).value.0, events), established, down);
    }
  }

  // --------------------------------------------------------------------- the client

  lemma GreetedReached(app: seq<byte>, target: seq<byte>) returns (s: Session)
    requires GreetingOutcome(app).Ok?
    ensures Reaches(s)
    ensures s == Start(app, target).(client := AwaitConnect, appRead := GreetingOutcome(app).value,
                                     toApp := METHOD_NONE)
  {
    var start := Start(app, target);
    assert Run(app, target, []) == Some(start) && start.toApp + METHOD_NONE == METHOD_NONE;
    s := Step(start, Client(Negotiate));
  }

  /** The client stops behind the method choice, having written a part of a failure reply. */
  lemma FailureReached(s: Session, code: ReplyCode, toApp: seq<byte>, up: seq<byte>) returns (t: Session)
    requires Reaches(s) && (s.client.AwaitConnect? || s.client.Opening?) && s.toApp == METHOD_NONE && s.up == []
    requires code in FAILURES && METHOD_NONE <= toApp <= METHOD_NONE + ReplyBytes(code)
    requires if s.client.Opening? then IsEncodable(s.client.request.target) && up <= RequestBytes(s.client.request)
             else up == []
    ensures Reaches(t) && t == s.(client := Stopped, toApp := toApp, up := up, upEnded := true)
  {
    var reply := toApp[2..];
    assert toApp == METHOD_NONE + reply && [] + up == up;
    assert reply <= (METHOD_NONE + ReplyBytes(code))[2..] == ReplyBytes(code);
    t := Step(s, Client(ClientStops(reply, up, true)));
  }

  lemma RefusedHandshakeReached(app: seq<byte>, target: seq<byte>, toApp: seq<byte>) returns (s: Session)
    requires HandshakeView(app, toApp)
    ensures Reaches(s)
    ensures s == Start(app, target).(client := Stopped, appRead := s.appRead, toApp := toApp, upEnded := true)
  {
    if GreetingOutcome(app).Ok? && !(toApp <= METHOD_NONE) {
      var error := ConnectOutcome(app[GreetingOutcome(app).value..]).error;
      ErrorReplyIsFailure(error);
      s := GreetedReached(app, target);
      s := FailureReached(s, ErrorReply(error), toApp, []);
    } else {
      var start := Start(app, target);
      assert Run(app, target, []) == Some(start) && [] + toApp == toApp && start.up + [] == [];
      s := Step(start, Client(ClientStops(toApp, [], true)));
    }
  }

  lemma UnansweredReached(app: seq<byte>, target: seq<byte>, code: ReplyCode, toApp: seq<byte>, up: seq<byte>)
    returns (s: Session)
    requires Handshake(app).Some? && up <= RequestPart(app)
    requires code in FAILURES && METHOD_NONE <= toApp <= METHOD_NONE + ReplyBytes(code)
    ensures Reaches(s)
    ensures s == Start(app, target).(client := Stopped, appRead := s.appRead, toApp := toApp, up := up, upEnded := true)
  {
    s := GreetedReached(app, target);
    s := Step(s, Client(ReadConnect));
    s := FailureReached(s, code, toApp, up);
  }

  /** A client that read a status passes it on, in part or in whole, and relays only behind a whole success. */
  lemma AnsweredReached(s: Session, code: ReplyCode, toApp: seq<byte>, established: bool) returns (t: Session)
    requires Reaches(s) && s.client.AwaitStatus? && s.toApp == METHOD_NONE && ResponseOutcome(s.down) == Ok(code)
    requires METHOD_NONE <= toApp <= METHOD_NONE + ReplyBytes(code) && !s.upEnded
    requires established ==> code == Succeeded && toApp == METHOD_NONE + ReplyBytes(Succeeded)
    ensures Reaches(t)
    ensures t == s.(client := if established then Relaying else Stopped, downRead := 8, toApp := toApp,
                    upEnded := t.upEnded)
  {
    var reply := toApp[2..];
    assert toApp == METHOD_NONE + reply && s.up + [] == s.up;
    assert reply <= (METHOD_NONE + ReplyBytes(code))[2..] == ReplyBytes(code);
    t := Step(s, Client(ReadStatus));
    if established {
      t := Step(t, Client(Reply));
    } else {
      t := Step(t, Client(ClientStops(reply, [], true)));
    }
  }

  // ------------------------------------------------------------------- both together

  lemma StatusArrives(target: seq<byte>, x: Exchange)
    requires x.down <= x.downStream <= x.down + (if x.serving then target else [])
    requires x.serving ==> x.down == ResponseBytes(Succeeded)
    ensures ResponseOutcome(x.down) == ResponseOutcome(x.downStream)
  {
    if x.serving {
      ResponseRoundTrip(Succeeded, []);
      ResponseRoundTrip(Succeeded, x.downStream[|x.down|..]);
      assert x.down + [] == x.down && x.downStream == x.down + x.downStream[|x.down|..];
    } else {
      assert x.down + [] == x.down;
    }
  }

  lemma UpStreamFits(app: seq<byte>, target: seq<byte>, x: Exchange)
    requires Exchanged(app, target, x)
    ensures x.up <= UpAll(app) && x.upStream <= UpAll(app)
    ensures !x.relaying ==> x.upStream == x.up
  {
    assert x.up + [] == x.up;
  }

  lemma AnsweredExchange(app: seq<byte>, target: seq<byte>, x: Exchange) returns (s: Session)
    requires Exchanged(app, target, x) && ReadsStatus(x.sent, x.downStream, x.clientEvents)
    ensures Reaches(s) && Agrees(s, app, target, x)
  {
    ReplyIsStatusOrFailure(x.sent, x.downStream, x.clientEvents);
    UpStreamFits(app, target, x);
    StatusArrives(target, x);
    s := AskedReached(app, target);
    RequestRoundTrip(Handshake(app).value.0, []);
    assert RequestPart(app) + [] == RequestPart(app);
    s := ServerOutcomeReached(s, x.upStream, x.policy, x.serverEvents, x.dialled, x.serving, x.down);
    s := AnsweredReached(s, ResponseOutcome(x.downStream).value, x.toApp, x.relaying);
  }

  lemma UnansweredExchange(app: seq<byte>, target: seq<byte>, x: Exchange) returns (s: Session)
    requires Exchanged(app, target, x) && !ReadsStatus(x.sent, x.downStream, x.clientEvents)
    ensures Reaches(s) && Agrees(s, app, target, x)
  {
    ReplyIsStatusOrFailure(x.sent, x.downStream, x.clientEvents);
    UpStreamFits(app, target, x);
    if HandshakeView(app, x.toApp) && x.up == [] && !x.sent && !x.relaying {
      s := RefusedHandshakeReached(app, target, x.toApp);
    } else {
      s := UnansweredReached(app, target, ReplyFor(x.sent, x.downStream, x.clientEvents), x.toApp, x.up);
    }
    s := ServerOutcomeReached(s, x.upStream, x.policy, x.serverEvents, x.dialled, x.serving, x.down);
  }

  /**
   Whatever two handlers that keep their contracts do, some run of the machine does: so all
   that holds over every run holds of the handlers.
   */
  lemma HandlersMakeARun(app: seq<byte>, target: seq<byte>, x: Exchange)
    requires Exchanged(app, target, x)
    ensures exists s :: Reaches(s) && Agrees(s, app, target, x)
  {
    if ReadsStatus(x.sent, x.downStream, x.clientEvents) {
      var s := AnsweredExchange(app, target, x);
    } else {
      var s := UnansweredExchange(app, target, x);
    }
  }

  /** Where the policy allows an address of the target, both handlers can get to relay everything. */
  lemma BothCanRelay(app: seq<byte>, target: seq<byte>, policy: Policy, addr: SocketAddr) returns (x: Exchange)
    requires Handshake(app).Some? && MayDial(policy, Handshake(app).value.0, Resolved([addr]), addr)
    ensures Exchanged(app, target, x) && x.relaying && x.serving
    ensures x.upStream == UpAll(app) && x.downStream == ResponseBytes(Succeeded) + target
  {
    x := Exchange(ClientEvents(false, false, Completes, false, false), true, true,
                  METHOD_NONE + ReplyBytes(Succeeded), RequestPart(app), UpAll(app),
                  policy, ServerEvents(false, Resolved([addr]), ConnectsTo), Some(addr), true,
                  ResponseBytes(Succeeded), ResponseBytes(Succeeded) + target);
    RequestRoundTrip(Handshake(app).value.0, Payload(app));
    ResponseRoundTrip(Succeeded, target);
  }

  /** The fourth byte that an application sees tells which code was replied. */
  lemma ReplyShowsCode(code: ReplyCode, toApp: seq<byte>)
    requires toApp <= METHOD_NONE + ReplyBytes(code) && |toApp| >= 4
    ensures toApp[3] == ReplyByte(Succeeded) <==> code == Succeeded
  {
    assert toApp[3] == (METHOD_NONE + ReplyBytes(code))[3] == ReplyByte(code);
  }

  lemma RefusedHandshakeShowsFailure(app: seq<byte>, toApp: seq<byte>)
    requires HandshakeView(app, toApp) && |toApp| >= 4
    ensures toApp[3] != ReplyByte(Succeeded)
  {
    var error := ConnectOutcome(app[GreetingOutcome(app).value..]).error;
    ErrorReplyIsFailure(error);
    ReplyShowsCode(ErrorReply(error), toApp);
  }

  lemma SuccessIsAStatus(app: seq<byte>, down: seq<byte>, events: ClientEvents,
                         sent: bool, established: bool, toApp: seq<byte>, up: seq<byte>)
    requires ClientOutcome(app, down, events, sent, established, toApp, up)
    requires established || (|toApp| >= 4 && toApp[3] == ReplyByte(Succeeded))
    ensures Handshake(app).Some? && ResponseOutcome(down) == Ok(Succeeded)
  {
    ReplyIsStatusOrFailure(sent, down, events);
    if !established {
      if HandshakeView(app, toApp) {
        RefusedHandshakeShowsFailure(app, toApp);
      } else {
        ReplyShowsCode(ReplyFor(sent, down, events), toApp);
      }
    }
  }

  /**
   An application that is told of success asked for a target, and the server is connected to
   an address that its policy allows for that target.
   */
  lemma SuccessMeansDialled(app: seq<byte>, target: seq<byte>, x: Exchange)
    requires Exchanged(app, target, x)
    requires x.relaying || (|x.toApp| >= 4 && x.toApp[3] == ReplyByte(Succeeded))
    ensures Handshake(app).Some? && x.dialled.Some? && x.serverEvents.connect.ConnectsTo?
    ensures MayDial(x.policy, Handshake(app).value.0, x.serverEvents.lookup, x.dialled.value)
  {
    SuccessIsAStatus(app, x.downStream, x.clientEvents, x.sent, x.relaying, x.toApp, x.up);
    UpStreamFits(app, target, x);
    StatusArrives(target, x);
    ResponseMeaning(x.down, Succeeded);
    var request := RequestOutcome(x.upStream).value.0;
    RequestReadIsAsked(app, x.upStream);
    AnswerMeaning(x.dialled, request, x.serverEvents);
    ResponseMeaning(x.down, AnswerCode(x.dialled, request, x.serverEvents));
  }
}

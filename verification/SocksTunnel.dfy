/**
 A SOCKS connection end to end: the local application, the client, the tunnel stream, the
 server and the target. Client and server step independently; either may stop at any await,
 leaving any prefix of what it was writing. The application and the target are represented
 by all the bytes each of them will ever send.
 */
module SocksTunnel {
  import opened Bytes
  import opened Socks5
  import opened Tunnel

  datatype ClientPhase =
    | Greeting
    | AwaitConnect
    | Opening(request: ConnectRequest)
    | AwaitStatus(request: ConnectRequest)
    | Replying(status: ReplyCode)
    | Relaying
    | Stopped

  datatype ServerPhase =
    | AwaitRequest
    | Connecting(request: ConnectRequest)
    | Serving
    | Gone

  /**
   `up` and `down` are the bytes written to the tunnel stream in each direction. A direction
   has ended once its reader can see the end; it is complete if the writer finished it after
   copying everything. `toTargetClosed` and `toAppClosed` record a clean half-close.
   */
  datatype Session = Session(
    app: seq<byte>, target: seq<byte>,
    client: ClientPhase, server: ServerPhase,
    appRead: nat, up: seq<byte>, upEnded: bool, upComplete: bool,
    upRead: nat, toTarget: seq<byte>, toTargetClosed: bool,
    verdict: Option<ReplyCode>,
    targetRead: nat, down: seq<byte>, downEnded: bool, downComplete: bool,
    downRead: nat, toApp: seq<byte>, toAppClosed: bool)

  function Start(app: seq<byte>, target: seq<byte>): Session {
    Session(app, target, Greeting, AwaitRequest, 0, [], false, false, 0, [], false,
            None, 0, [], false, false, 0, [], false)
  }

  /** Each step of the client. A write that does not complete ends its party. */
  datatype ClientAction =
    | Negotiate
    | ReadConnect
    | SendRequest
    | ReadStatus
    | Reply
    | RelayUp(bytes: seq<byte>)
    | FinishUp
    | RelayDown(bytes: seq<byte>)
    | CloseApp
    | ClientStops(appWrite: seq<byte>, upWrite: seq<byte>, ended: bool)

  datatype ServerAction =
    | ReadRequest
    | Connected
    | RelayToTarget(bytes: seq<byte>)
    | CloseTarget
    | RelayFromTarget(bytes: seq<byte>)
    | FinishDown
    | Refuse(code: ReplyCode, downWrite: seq<byte>)
    | ServerStops(targetWrite: seq<byte>, downWrite: seq<byte>, ended: bool)

  datatype Action = Client(step: ClientAction) | Server(work: ServerAction)

  /** The target asked for, and how many bytes the application sent to ask. */
  function Handshake(app: seq<byte>): (asked: Option<(ConnectRequest, nat)>)
    ensures asked.Some? ==> IsEncodable(asked.value.0.target) && asked.value.1 <= |app|
  {
    match GreetingOutcome(app)
    case Err(_) => None
    case Ok(greeting) =>
      match ConnectOutcome(app[greeting..])
      case Err(_) => None
      case Ok((request, n)) =>
        ConnectIsCanonical(app[greeting..]);
        Some((request, greeting + n))
  }

  /** Some of the bytes next to be read. */
  predicate IsNext(bytes: seq<byte>, stream: seq<byte>, position: nat) {
    bytes != [] && position <= |stream| && bytes <= stream[position..]
  }

  /** What a client stopping in that phase may have been writing to the application. */
  predicate ClientMayWrite(s: Session, bytes: seq<byte>)
  {
    match s.client
    case Greeting => bytes <= (if GreetingOutcome(s.app).Ok? then METHOD_NONE else METHOD_UNACCEPTABLE)
    case Replying(status) => bytes <= ReplyBytes(status)
    case Relaying => bytes == [] || (!s.toAppClosed && IsNext(bytes, s.down, s.downRead))
    case Stopped => false
    case _ => exists code <- FAILURES :: bytes <= ReplyBytes(code)
  }

  const FAILURES: seq<ReplyCode> := [GeneralFailure, TtlExpired, CommandNotSupported, AddressTypeNotSupported]

  /** What a client stopping in that phase may have been writing to the tunnel. */
  predicate ClientMaySend(s: Session, bytes: seq<byte>)
  {
    match s.client
    case Opening(request) => IsEncodable(request.target) && bytes <= RequestBytes(request)
    case Relaying => bytes == [] || (!s.upComplete && IsNext(bytes, s.app, s.appRead))
    case _ => bytes == []
  }

  /** What a server stopping in that phase may have been writing to the target. */
  predicate ServerMayWrite(s: Session, bytes: seq<byte>)
  {
    match s.server
    case Serving => bytes == [] || (!s.toTargetClosed && IsNext(bytes, s.up, s.upRead))
    case _ => bytes == []
  }

  /** What a server stopping in that phase may have been writing to the tunnel. */
  predicate ServerMaySend(s: Session, bytes: seq<byte>)
  {
    match s.server
    case Connecting(_) => bytes <= ResponseBytes(Succeeded)
    case Serving => bytes == [] || (!s.downComplete && IsNext(bytes, s.target, s.targetRead))
    case _ => bytes == []
  }

  predicate ClientEnabled(s: Session, a: ClientAction)
  {
    match a
    case Negotiate => s.client.Greeting? && GreetingOutcome(s.app).Ok?
    case ReadConnect => s.client.AwaitConnect? && s.appRead <= |s.app| && ConnectOutcome(s.app[s.appRead..]).Ok?
    case SendRequest => s.client.Opening? && IsEncodable(s.client.request.target)
    case ReadStatus => s.client.AwaitStatus? && ResponseOutcome(s.down).Ok?
    case Reply => s.client.Replying?
    case RelayUp(bytes) => s.client.Relaying? && !s.upComplete && IsNext(bytes, s.app, s.appRead)
    case FinishUp => s.client.Relaying? && !s.upComplete && s.appRead == |s.app|
    case RelayDown(bytes) => s.client.Relaying? && !s.toAppClosed && IsNext(bytes, s.down, s.downRead)
    case CloseApp => s.client.Relaying? && !s.toAppClosed && s.downEnded && s.downRead == |s.down|
    case ClientStops(appWrite, upWrite, _) =>
      !s.client.Stopped? && ClientMayWrite(s, appWrite) && ClientMaySend(s, upWrite)
  }

  predicate ServerEnabled(s: Session, a: ServerAction)
  {
    match a
    case ReadRequest => s.server.AwaitRequest? && RequestOutcome(s.up).Ok?
    case Connected => s.server.Connecting?
    case RelayToTarget(bytes) => s.server.Serving? && !s.toTargetClosed && IsNext(bytes, s.up, s.upRead)
    case CloseTarget => s.server.Serving? && !s.toTargetClosed && s.upEnded && s.upRead == |s.up|
    case RelayFromTarget(bytes) => s.server.Serving? && !s.downComplete && IsNext(bytes, s.target, s.targetRead)
    case FinishDown => s.server.Serving? && !s.downComplete && s.targetRead == |s.target|
    case Refuse(code, downWrite) =>
      && (s.server.Connecting? || (s.server.AwaitRequest? && code == GeneralFailure))
      && code != Succeeded && downWrite <= ResponseBytes(code)
    case ServerStops(targetWrite, downWrite, _) =>
      !s.server.Gone? && ServerMayWrite(s, targetWrite) && ServerMaySend(s, downWrite)
  }

  predicate Enabled(s: Session, a: Action) {
    match a
    case Client(step) => ClientEnabled(s, step)
    case Server(work) => ServerEnabled(s, work)
  }

  function ClientApply(s: Session, a: ClientAction): (r: Session)
    requires ClientEnabled(s, a)
    ensures r.app == s.app && r.target == s.target
  {
    match a
    case Negotiate =>
      s.(client := AwaitConnect, appRead := GreetingOutcome(s.app).value, toApp := s.toApp + METHOD_NONE)
    case ReadConnect =>
      var (request, n) := ConnectOutcome(s.app[s.appRead..]).value;
      s.(client := Opening(request), appRead := s.appRead + n)
    case SendRequest => s.(client := AwaitStatus(s.client.request), up := s.up + RequestBytes(s.client.request))
    case ReadStatus => s.(client := Replying(ResponseOutcome(s.down).value), downRead := 8)
    case Reply =>
      s.(toApp := s.toApp + ReplyBytes(s.client.status),
         client := if s.client.status == Succeeded then Relaying else Stopped,
         upEnded := s.client.status != Succeeded)
    case RelayUp(bytes) => s.(up := s.up + bytes, appRead := s.appRead + |bytes|)
    case FinishUp => s.(upComplete := true, upEnded := true)
    case RelayDown(bytes) => s.(toApp := s.toApp + bytes, downRead := s.downRead + |bytes|)
    case CloseApp => s.(toAppClosed := true)
    case ClientStops(appWrite, upWrite, ended) =>
      s.(client := Stopped, toApp := s.toApp + appWrite, up := s.up + upWrite, upEnded := s.upEnded || ended)
  }

  function ServerApply(s: Session, a: ServerAction): (r: Session)
    requires ServerEnabled(s, a)
    ensures r.app == s.app && r.target == s.target
  {
    match a
    case ReadRequest =>
      var (request, n) := RequestOutcome(s.up).value;
      s.(server := Connecting(request), upRead := n)
    case Connected => s.(server := Serving, verdict := Some(Succeeded), down := s.down + ResponseBytes(Succeeded))
    case RelayToTarget(bytes) => s.(toTarget := s.toTarget + bytes, upRead := s.upRead + |bytes|)
    case CloseTarget => s.(toTargetClosed := true)
    case RelayFromTarget(bytes) => s.(down := s.down + bytes, targetRead := s.targetRead + |bytes|)
    case FinishDown => s.(downComplete := true, downEnded := true)
    case Refuse(code, downWrite) =>
      s.(server := Gone, verdict := Some(code), down := s.down + downWrite, downEnded := true)
    case ServerStops(targetWrite, downWrite, ended) =>
      s.(server := Gone, toTarget := s.toTarget + targetWrite, down := s.down + downWrite,
         verdict := if downWrite != [] then Some(Succeeded) else s.verdict, downEnded := s.downEnded || ended)
  }

  function Apply(s: Session, a: Action): (r: Session)
    requires Enabled(s, a)
    ensures r.app == s.app && r.target == s.target
  {
    match a
    case Client(step) => ClientApply(s, step)
    case Server(work) => ServerApply(s, work)
  }

  function Run(app: seq<byte>, target: seq<byte>, steps: seq<Action>): Option<Session>
  {
    if steps == [] then Some(Start(app, target))
    else
      match Run(app, target, steps[..|steps| - 1])
      case None => None
      case Some(s) => if Enabled(s, steps[|steps| - 1]) then Some(Apply(s, steps[|steps| - 1])) else None
  }

  // --------------------------------------------------------------- the invariant

  /** What the application sends after its CONNECT request. */
  function Payload(app: seq<byte>): seq<byte>
  {
    match Handshake(app)
    case None => []
    case Some((_, n)) => app[n..]
  }

  function RequestPart(app: seq<byte>): seq<byte>
  {
    match Handshake(app)
    case None => []
    case Some((request, _)) => RequestBytes(request)
  }

  /** All that may ever go up: the request, then the payload. */
  function UpAll(app: seq<byte>): seq<byte>
  {
    RequestPart(app) + Payload(app)
  }

  /** All that may ever come down under a verdict: the response, then the target's bytes if accepted. */
  function DownAll(verdict: Option<ReplyCode>, target: seq<byte>): seq<byte>
  {
    match verdict
    case None => []
    case Some(code) => ResponseBytes(code) + (if code == Succeeded then target else [])
  }

  /** All that the application may see of a connection with that outcome. */
  function AppAll(code: ReplyCode, target: seq<byte>): seq<byte>
  {
    (METHOD_NONE + ReplyBytes(code)) + (if code == Succeeded then target else [])
  }

  /** A refused greeting, a failure reply, or a success reply followed by the target's bytes. */
  ghost predicate AppView(toApp: seq<byte>, verdict: Option<ReplyCode>, target: seq<byte>)
  {
    || toApp <= METHOD_UNACCEPTABLE
    || toApp <= METHOD_NONE
    || exists code :: (code == Succeeded ==> verdict == Some(Succeeded)) && toApp <= AppAll(code, target)
  }

  ghost predicate ClientInv(s: Session)
  {
    match s.client
    case Greeting => s.appRead == 0 && s.up == [] && s.toApp == []
    case AwaitConnect => GreetingOutcome(s.app) == Ok(s.appRead) && s.up == [] && s.toApp == METHOD_NONE
    case Opening(request) => Handshake(s.app) == Some((request, s.appRead)) && s.up == [] && s.toApp == METHOD_NONE
    case AwaitStatus(request) =>
      Handshake(s.app) == Some((request, s.appRead)) && s.up == RequestPart(s.app) && s.toApp == METHOD_NONE
    case Replying(status) =>
      && Handshake(s.app).Some? && Handshake(s.app).value.1 == s.appRead && s.up == RequestPart(s.app)
      && s.verdict == Some(status) && s.downRead == 8 <= |s.down| && s.toApp == METHOD_NONE
    case Relaying =>
      && Handshake(s.app).Some? && Handshake(s.app).value.1 <= s.appRead <= |s.app|
      && |s.up| == |RequestPart(s.app)| + (s.appRead - Handshake(s.app).value.1)
      && s.verdict == Some(Succeeded) && 8 <= s.downRead <= |s.down|
      && s.toApp <= AppAll(Succeeded, s.target) && |s.toApp| == 12 + (s.downRead - 8)
    case Stopped => true
  }

  ghost predicate ServerInv(s: Session)
  {
    match s.server
    case AwaitRequest => s.upRead == 0 && s.toTarget == [] && s.down == [] && s.verdict.None? && s.targetRead == 0
    case Connecting(request) =>
      && Handshake(s.app).Some? && Handshake(s.app).value.0 == request
      && s.toTarget == [] && s.down == [] && s.verdict.None? && s.targetRead == 0
      && s.upRead == |RequestPart(s.app)| <= |s.up|
    case Serving =>
      && s.verdict == Some(Succeeded)
      && |RequestPart(s.app)| <= s.upRead <= |s.up| && |s.toTarget| == s.upRead - |RequestPart(s.app)|
      && s.targetRead <= |s.target| && |s.down| == 8 + s.targetRead
    case Gone => true
  }

  /** What each direction carries. */
  ghost predicate StreamsInv(s: Session)
  {
    && s.up <= UpAll(s.app)
    && s.toTarget <= Payload(s.app)
    && s.down <= DownAll(s.verdict, s.target)
    && AppView(s.toApp, s.verdict, s.target)
  }

  /** What the end of each direction means: it was copied to its end, or its writer stopped. */
  ghost predicate EndsInv(s: Session)
  {
    && (s.upComplete ==> s.upEnded && |s.up| == |UpAll(s.app)| && (s.client.Relaying? || s.client.Stopped?))
    && (s.upEnded ==> s.upComplete || s.client.Stopped?)
    && (s.toTargetClosed ==> s.upEnded && |s.toTarget| + |RequestPart(s.app)| == |s.up|
                             && (s.server.Serving? || s.server.Gone?))
    && (s.downComplete ==> s.downEnded && s.verdict == Some(Succeeded) && |s.down| == 8 + |s.target|
                           && (s.server.Serving? || s.server.Gone?))
    && (s.downEnded ==> s.downComplete || s.server.Gone?)
    && (s.toAppClosed ==> s.downEnded && s.verdict == Some(Succeeded) && |s.toApp| == 4 + |s.down|
                          && s.toApp <= AppAll(Succeeded, s.target) && (s.client.Relaying? || s.client.Stopped?))
  }

  ghost predicate Inv(s: Session) {
    ClientInv(s) && ServerInv(s) && StreamsInv(s) && EndsInv(s)
  }

  // ------------------------------------------------------------ what the codecs give

  /** Where a request can be read from what went up, it is the one the application asked for. */
  lemma RequestReadIsAsked(app: seq<byte>, up: seq<byte>)
    requires up <= UpAll(app) && RequestOutcome(up).Ok?
    ensures Handshake(app).Some? && RequestOutcome(up) == Ok((Handshake(app).value.0, |RequestPart(app)|))
  {
    RequestIsCanonical(up);
    var (request, n) := RequestOutcome(up).value;
    Regroup(up[..n], up[n..], UpAll(app)[|up|..]);
    RequestRoundTrip(request, UpAll(app)[n..]);
    assert UpAll(app) == RequestBytes(request) + UpAll(app)[n..];
    if Handshake(app).Some? {
      RequestRoundTrip(Handshake(app).value.0, Payload(app));
    }
  }

  /** Where a status can be read from what came down, it is the server's verdict. */
  lemma StatusReadIsVerdict(verdict: Option<ReplyCode>, target: seq<byte>, down: seq<byte>)
    requires down <= DownAll(verdict, target) && ResponseOutcome(down).Ok?
    ensures verdict.Some? && ResponseOutcome(down) == Ok(verdict.value) && |down| >= 8
  {
    ResponseMeaning(down, ResponseOutcome(down).value);
    ResponseMeaning(down, verdict.value);
    assert DownAll(verdict, target)[..6] == ResponseBytes(verdict.value)[..6];
    assert down[..6] == DownAll(verdict, target)[..6];
  }

  /**
   One hop of a relay. The bytes after `front` in what is read and after `newFront` in what is
   written are the same stream `whole`, and as many of them were written as were read: so the
   next bytes read may be written too.
   */
  lemma RelayHop(front: seq<byte>, newFront: seq<byte>, whole: seq<byte>,
                 input: seq<byte>, readTo: nat, output: seq<byte>, chunk: seq<byte>)
    requires input <= front + whole && |front| <= readTo <= |input|
    requires output <= newFront + whole && |output| == |newFront| + (readTo - |front|)
    requires chunk <= input[readTo..]
    ensures output + chunk <= newFront + whole
    ensures newFront == [] ==> output + chunk <= whole
  {
    var i := readTo - |front|;
    assert chunk <= whole[i..] by {
      assert input[readTo..] <= (front + whole)[readTo..] == whole[i..];
    }
    assert newFront + whole == output + whole[i..];
  }

  // ------------------------------------------------------------- every step keeps it

  /** What comes down next to a relaying client fits behind what the application has. */
  lemma RelayedToApp(s: Session, bytes: seq<byte>)
    requires ClientInv(s) && s.client.Relaying? && s.down <= DownAll(s.verdict, s.target)
    requires bytes <= s.down[s.downRead..]
    ensures s.toApp + bytes <= AppAll(Succeeded, s.target)
  {
    RelayHop(ResponseBytes(Succeeded), METHOD_NONE + ReplyBytes(Succeeded), s.target,
             s.down, s.downRead, s.toApp, bytes);
  }

  lemma ReplyFits(code: ReplyCode, target: seq<byte>, bytes: seq<byte>)
    requires bytes <= ReplyBytes(code)
    ensures METHOD_NONE + bytes <= AppAll(code, target)
  {
  }

  /** What the client may write next to the application keeps its view whole. */
  lemma AppStreamGrows(s: Session, bytes: seq<byte>)
    requires Inv(s) && !s.client.Stopped? && ClientMayWrite(s, bytes)
    ensures AppView(s.toApp + bytes, s.verdict, s.target)
    ensures s.toAppClosed ==> bytes == []
  {
    match s.client
    case Greeting =>
    case Stopped =>
    case Replying(status) => ReplyFits(status, s.target, bytes);
    case Relaying =>
      if bytes == [] {
        assert s.toApp + bytes == s.toApp;
      } else {
        RelayedToApp(s, bytes);
      }
    case _ =>
      var code :| code in FAILURES && bytes <= ReplyBytes(code);
      ReplyFits(code, s.target, bytes);
  }

  /** So it is for what the client may send next through the tunnel, */
  lemma UpStreamGrows(s: Session, bytes: seq<byte>)
    requires Inv(s) && ClientMaySend(s, bytes)
    ensures s.up + bytes <= UpAll(s.app)
    ensures s.upComplete ==> bytes == []
  {
    match s.client
    case Relaying =>
      if bytes == [] {
        assert s.up + bytes == s.up;
      } else {
        RelayHop(s.app[..Handshake(s.app).value.1], RequestPart(s.app), Payload(s.app), s.app, s.appRead,
                 s.up, bytes);
      }
    case Opening(request) => assert s.up + bytes == bytes;
    case _ => assert s.up + bytes == s.up;
  }

  /** what the server may write next to the target, */
  lemma TargetStreamGrows(s: Session, bytes: seq<byte>)
    requires Inv(s) && ServerMayWrite(s, bytes)
    ensures s.toTarget + bytes <= Payload(s.app)
    ensures s.toTargetClosed ==> bytes == []
  {
    if bytes == [] {
      assert s.toTarget + bytes == s.toTarget;
    } else {
      RelayHop(RequestPart(s.app), [], Payload(s.app), s.up, s.upRead, s.toTarget, bytes);
    }
  }

  /** and what the server may send next through the tunnel. */
  lemma DownStreamGrows(s: Session, bytes: seq<byte>)
    requires Inv(s) && ServerMaySend(s, bytes)
    ensures s.down + bytes <= DownAll(if bytes != [] then Some(Succeeded) else s.verdict, s.target)
    ensures s.downComplete ==> bytes == []
  {
    if bytes == [] {
      assert s.down + bytes == s.down;
    } else if s.server.Serving? {
      RelayHop([], ResponseBytes(Succeeded), s.target, s.target, s.targetRead, s.down, bytes);
    } else {
      assert s.down + bytes == bytes;
    }
  }

  /** A server step leaves the client's half of the invariant standing, */
  lemma ClientHalfStands(s: Session, t: Session)
    requires ClientInv(s) && t.app == s.app && t.target == s.target && t.client == s.client
    requires t.appRead == s.appRead && t.up == s.up && t.toApp == s.toApp && t.downRead == s.downRead
    requires |s.down| <= |t.down| && (s.verdict.Some? ==> t.verdict == s.verdict)
    ensures ClientInv(t)
  {
  }

  /** and a client step the server's. */
  lemma ServerHalfStands(s: Session, t: Session)
    requires ServerInv(s) && t.app == s.app && t.target == s.target && t.server == s.server
    requires t.upRead == s.upRead && t.toTarget == s.toTarget && t.verdict == s.verdict
    requires t.targetRead == s.targetRead && t.down == s.down && |s.up| <= |t.up|
    ensures ServerInv(t)
  {
  }

  lemma KeepNegotiate(s: Session)
    requires Inv(s) && ClientEnabled(s, Negotiate)
    ensures Inv(ClientApply(s, Negotiate))
  {
  }

  lemma KeepReadConnect(s: Session, request: ConnectRequest, n: nat, t: Session)
    requires Inv(s) && s.client.AwaitConnect? && Handshake(s.app) == Some((request, s.appRead + n))
    requires t == s.(client := Opening(request), appRead := s.appRead + n)
    ensures Inv(t)
  {
  }

  lemma KeepSendRequest(s: Session)
    requires Inv(s) && ClientEnabled(s, SendRequest)
    ensures Inv(ClientApply(s, SendRequest))
  {
  }

  lemma KeepReadStatus(s: Session)
    requires Inv(s) && ClientEnabled(s, ReadStatus)
    ensures Inv(ClientApply(s, ReadStatus))
  {
    StatusReadIsVerdict(s.verdict, s.target, s.down);
  }

  lemma KeepReply(s: Session)
    requires Inv(s) && ClientEnabled(s, Reply)
    ensures Inv(ClientApply(s, Reply))
  {
    assert s.toApp + ReplyBytes(s.client.status) <= AppAll(s.client.status, s.target);
  }

  lemma KeepRelayUp(s: Session, bytes: seq<byte>, t: Session)
    requires Inv(s) && s.client.Relaying? && !s.upComplete && IsNext(bytes, s.app, s.appRead)
    requires t == s.(up := s.up + bytes, appRead := s.appRead + |bytes|)
    ensures Inv(t)
  {
    ServerHalfStands(s, t);
    UpStreamGrows(s, bytes);
  }

  lemma KeepFinishUp(s: Session)
    requires Inv(s) && ClientEnabled(s, FinishUp)
    ensures Inv(ClientApply(s, FinishUp))
  {
  }

  lemma KeepRelayDown(s: Session, bytes: seq<byte>, t: Session)
    requires Inv(s) && s.client.Relaying? && !s.toAppClosed && IsNext(bytes, s.down, s.downRead)
    requires t == s.(toApp := s.toApp + bytes, downRead := s.downRead + |bytes|)
    ensures Inv(t)
  {
    ServerHalfStands(s, t);
    RelayedToApp(s, bytes);
  }

  lemma KeepCloseApp(s: Session)
    requires Inv(s) && ClientEnabled(s, CloseApp)
    ensures Inv(ClientApply(s, CloseApp))
  {
  }

  lemma KeepReadRequest(s: Session)
    requires Inv(s) && ServerEnabled(s, ReadRequest)
    ensures Inv(ServerApply(s, ReadRequest))
  {
    RequestReadIsAsked(s.app, s.up);
  }

  lemma KeepConnected(s: Session)
    requires Inv(s) && ServerEnabled(s, Connected)
    ensures Inv(ServerApply(s, Connected))
  {
  }

  lemma KeepRelayToTarget(s: Session, bytes: seq<byte>, t: Session)
    requires Inv(s) && s.server.Serving? && !s.toTargetClosed && IsNext(bytes, s.up, s.upRead)
    requires t == s.(toTarget := s.toTarget + bytes, upRead := s.upRead + |bytes|)
    ensures Inv(t)
  {
    ClientHalfStands(s, t);
    TargetStreamGrows(s, bytes);
  }

  lemma KeepCloseTarget(s: Session)
    requires Inv(s) && ServerEnabled(s, CloseTarget)
    ensures Inv(ServerApply(s, CloseTarget))
  {
  }

  lemma KeepRelayFromTarget(s: Session, bytes: seq<byte>, t: Session)
    requires Inv(s) && s.server.Serving? && !s.downComplete && IsNext(bytes, s.target, s.targetRead)
    requires t == s.(down := s.down + bytes, targetRead := s.targetRead + |bytes|)
    ensures Inv(t)
  {
    ClientHalfStands(s, t);
    DownStreamGrows(s, bytes);
  }

  lemma KeepFinishDown(s: Session)
    requires Inv(s) && ServerEnabled(s, FinishDown)
    ensures Inv(ServerApply(s, FinishDown))
  {
  }

  lemma KeepRefuse(s: Session, code: ReplyCode, downWrite: seq<byte>, t: Session)
    requires Inv(s) && (s.server.Connecting? || s.server.AwaitRequest?)
    requires code != Succeeded && downWrite <= ResponseBytes(code)
    requires t == s.(server := Gone, verdict := Some(code), down := s.down + downWrite, downEnded := true)
    ensures Inv(t)
  {
    ClientHalfStands(s, t);
  }

  lemma KeepClientStops(s: Session, appWrite: seq<byte>, upWrite: seq<byte>, ended: bool, t: Session)
    requires Inv(s) && !s.client.Stopped? && ClientMayWrite(s, appWrite) && ClientMaySend(s, upWrite)
    requires t == s.(client := Stopped, toApp := s.toApp + appWrite, up := s.up + upWrite,
                     upEnded := s.upEnded || ended)
    ensures Inv(t)
  {
    ServerHalfStands(s, t);
    AppStreamGrows(s, appWrite);
    UpStreamGrows(s, upWrite);
  }

  lemma KeepServerStops(s: Session, targetWrite: seq<byte>, downWrite: seq<byte>, ended: bool, t: Session)
    requires Inv(s) && !s.server.Gone? && ServerMayWrite(s, targetWrite) && ServerMaySend(s, downWrite)
    requires t == s.(server := Gone, toTarget := s.toTarget + targetWrite, down := s.down + downWrite,
                       verdict := if downWrite != [] then Some(Succeeded) else s.verdict,
                       downEnded := s.downEnded || ended)
    ensures Inv(t)
  {
    ClientHalfStands(s, t);
    TargetStreamGrows(s, targetWrite);
    DownStreamGrows(s, downWrite);
  }

  lemma HandshakeIs(app: seq<byte>, greeting: nat, request: ConnectRequest, n: nat)
    requires GreetingOutcome(app) == Ok(greeting) && ConnectOutcome(app[greeting..]) == Ok((request, n))
    ensures Handshake(app) == Some((request, greeting + n))
  {
  }

  lemma ReadConnectEffect(s: Session) returns (request: ConnectRequest, n: nat)
    requires ClientEnabled(s, ReadConnect) && GreetingOutcome(s.app) == Ok(s.appRead)
    ensures Handshake(s.app) == Some((request, s.appRead + n))
    ensures ClientApply(s, ReadConnect) == s.(client := Opening(request), appRead := s.appRead + n)
  {
    request, n := ConnectOutcome(s.app[s.appRead..]).value.0, ConnectOutcome(s.app[s.appRead..]).value.1;
    HandshakeIs(s.app, s.appRead, request, n);
  }

  lemma ReadConnectKeepsInv(s: Session)
    requires Inv(s) && ClientEnabled(s, ReadConnect)
    ensures Inv(ClientApply(s, ReadConnect))
  {
    var request, n := ReadConnectEffect(s);
    KeepReadConnect(s, request, n, ClientApply(s, ReadConnect));
  }

  lemma RelayUpEffect(s: Session, bytes: seq<byte>)
    requires ClientEnabled(s, RelayUp(bytes))
    ensures s.client.Relaying? && !s.upComplete && IsNext(bytes, s.app, s.appRead)
    ensures ClientApply(s, RelayUp(bytes)) == s.(up := s.up + bytes, appRead := s.appRead + |bytes|)
  {
  }

  lemma RelayUpKeepsInv(s: Session, bytes: seq<byte>)
    requires Inv(s) && ClientEnabled(s, RelayUp(bytes))
    ensures Inv(ClientApply(s, RelayUp(bytes)))
  {
    RelayUpEffect(s, bytes);
    KeepRelayUp(s, bytes, ClientApply(s, RelayUp(bytes)));
  }

  lemma RelayDownEffect(s: Session, bytes: seq<byte>)
    requires ClientEnabled(s, RelayDown(bytes))
    ensures s.client.Relaying? && !s.toAppClosed && IsNext(bytes, s.down, s.downRead)
    ensures ClientApply(s, RelayDown(bytes)) == s.(toApp := s.toApp + bytes, downRead := s.downRead + |bytes|)
  {
  }

  lemma RelayDownKeepsInv(s: Session, bytes: seq<byte>)
    requires Inv(s) && ClientEnabled(s, RelayDown(bytes))
    ensures Inv(ClientApply(s, RelayDown(bytes)))
  {
    RelayDownEffect(s, bytes);
    KeepRelayDown(s, bytes, ClientApply(s, RelayDown(bytes)));
  }

  lemma ClientStopsKeepsInv(s: Session, appWrite: seq<byte>, upWrite: seq<byte>, ended: bool)
    requires Inv(s) && ClientEnabled(s, ClientStops(appWrite, upWrite, ended))
    ensures Inv(ClientApply(s, ClientStops(appWrite, upWrite, ended)))
  {
    KeepClientStops(s, appWrite, upWrite, ended, ClientApply(s, ClientStops(appWrite, upWrite, ended)));
  }

  lemma ClientStepKeepsInv(s: Session, a: ClientAction)
    requires Inv(s) && ClientEnabled(s, a)
    ensures Inv(ClientApply(s, a))
  {
    match a
    case Negotiate => KeepNegotiate(s);
    case ReadConnect => ReadConnectKeepsInv(s);
    case SendRequest => KeepSendRequest(s);
    case ReadStatus => KeepReadStatus(s);
    case Reply => KeepReply(s);
    case RelayUp(bytes) => RelayUpKeepsInv(s, bytes);
    case FinishUp => KeepFinishUp(s);
    case RelayDown(bytes) => RelayDownKeepsInv(s, bytes);
    case CloseApp => KeepCloseApp(s);
    case ClientStops(appWrite, upWrite, ended) => ClientStopsKeepsInv(s, appWrite, upWrite, ended);
  }

  lemma RelayToTargetEffect(s: Session, bytes: seq<byte>)
    requires ServerEnabled(s, RelayToTarget(bytes))
    ensures s.server.Serving? && !s.toTargetClosed && IsNext(bytes, s.up, s.upRead)
    ensures ServerApply(s, RelayToTarget(bytes)) == s.(toTarget := s.toTarget + bytes, upRead := s.upRead + |bytes|)
  {
  }

  lemma RelayToTargetKeepsInv(s: Session, bytes: seq<byte>)
    requires Inv(s) && ServerEnabled(s, RelayToTarget(bytes))
    ensures Inv(ServerApply(s, RelayToTarget(bytes)))
  {
    RelayToTargetEffect(s, bytes);
    KeepRelayToTarget(s, bytes, ServerApply(s, RelayToTarget(bytes)));
  }

  lemma RelayFromTargetEffect(s: Session, bytes: seq<byte>)
    requires ServerEnabled(s, RelayFromTarget(bytes))
    ensures s.server.Serving? && !s.downComplete && IsNext(bytes, s.target, s.targetRead)
    ensures ServerApply(s, RelayFromTarget(bytes)) == s.(down := s.down + bytes, targetRead := s.targetRead + |bytes|)
  {
  }

  lemma RelayFromTargetKeepsInv(s: Session, bytes: seq<byte>)
    requires Inv(s) && ServerEnabled(s, RelayFromTarget(bytes))
    ensures Inv(ServerApply(s, RelayFromTarget(bytes)))
  {
    RelayFromTargetEffect(s, bytes);
    KeepRelayFromTarget(s, bytes, ServerApply(s, RelayFromTarget(bytes)));
  }

  lemma RefuseKeepsInv(s: Session, code: ReplyCode, downWrite: seq<byte>)
    requires Inv(s) && ServerEnabled(s, Refuse(code, downWrite))
    ensures Inv(ServerApply(s, Refuse(code, downWrite)))
  {
    KeepRefuse(s, code, downWrite, ServerApply(s, Refuse(code, downWrite)));
  }

  lemma ServerStopsKeepsInv(s: Session, targetWrite: seq<byte>, downWrite: seq<byte>, ended: bool)
    requires Inv(s) && ServerEnabled(s, ServerStops(targetWrite, downWrite, ended))
    ensures Inv(ServerApply(s, ServerStops(targetWrite, downWrite, ended)))
  {
    KeepServerStops(s, targetWrite, downWrite, ended, ServerApply(s, ServerStops(targetWrite, downWrite, ended)));
  }

  lemma ServerStepKeepsInv(s: Session, a: ServerAction)
    requires Inv(s) && ServerEnabled(s, a)
    ensures Inv(ServerApply(s, a))
  {
    match a
    case ReadRequest => KeepReadRequest(s);
    case Connected => KeepConnected(s);
    case RelayToTarget(bytes) => RelayToTargetKeepsInv(s, bytes);
    case CloseTarget => KeepCloseTarget(s);
    case RelayFromTarget(bytes) => RelayFromTargetKeepsInv(s, bytes);
    case FinishDown => KeepFinishDown(s);
    case Refuse(code, downWrite) => RefuseKeepsInv(s, code, downWrite);
    case ServerStops(targetWrite, downWrite, ended) => ServerStopsKeepsInv(s, targetWrite, downWrite, ended);
  }

  lemma StepKeepsInv(s: Session, a: Action)
    requires Inv(s) && Enabled(s, a)
    ensures Inv(Apply(s, a))
  {
    match a
    case Client(step) => ClientStepKeepsInv(s, step);
    case Server(work) => ServerStepKeepsInv(s, work);
  }

  lemma {:induction false} RunKeepsInv(app: seq<byte>, target: seq<byte>, steps: seq<Action>)
    requires Run(app, target, steps).Some?
    ensures var s := Run(app, target, steps).value; Inv(s) && s.app == app && s.target == target
  {
    if steps == [] {
      assert Inv(Start(app, target));
    } else {
      var last := |steps| - 1;
      RunKeepsInv(app, target, steps[..last]);
      StepKeepsInv(Run(app, target, steps[..last]).value, steps[last]);
    }
  }

  // ------------------------------------------------------------------- over every run

  /** The server dials only the target the application asked for. */
  lemma OnlyTheAskedTargetIsDialled(app: seq<byte>, target: seq<byte>, steps: seq<Action>)
    requires Run(app, target, steps).Some? && Run(app, target, steps).value.server.Connecting?
    ensures Handshake(app).Some? && Handshake(app).value.0 == Run(app, target, steps).value.server.request
  {
    RunKeepsInv(app, target, steps);
  }

  /** The target receives what follows the CONNECT request, in order and from the start; all of it on clean ends. */
  lemma TargetReceivesPayload(app: seq<byte>, target: seq<byte>, steps: seq<Action>)
    requires Run(app, target, steps).Some?
    ensures var s := Run(app, target, steps).value;
            s.toTarget <= Payload(app) && (s.upComplete && s.toTargetClosed ==> s.toTarget == Payload(app))
  {
    RunKeepsInv(app, target, steps);
  }

  lemma AppViewMeaning(toApp: seq<byte>, verdict: Option<ReplyCode>, target: seq<byte>)
    requires AppView(toApp, verdict, target)
    ensures |toApp| >= 4 && toApp[3] == ReplyByte(Succeeded) ==> verdict == Some(Succeeded)
    ensures |toApp| > 12 ==> verdict == Some(Succeeded) && toApp[12..] <= target
  {
    if |toApp| > 2 {
      var code :| (code == Succeeded ==> verdict == Some(Succeeded)) && toApp <= AppAll(code, target);
      assert AppAll(code, target)[3] == ReplyByte(code);
      if |toApp| > 12 {
        assert AppAll(code, target)[12..] == target;
      }
    }
  }

  /**
   Past the two bytes of the method choice and the ten of the reply, the application receives
   what the target sent, in order and from the start; all of it on clean ends. A success reply
   is never sent but for a success verdict of the server.
   */
  lemma AppReceivesTarget(app: seq<byte>, target: seq<byte>, steps: seq<Action>)
    requires Run(app, target, steps).Some?
    ensures var s := Run(app, target, steps).value;
            && AppView(s.toApp, s.verdict, target)
            && (|s.toApp| >= 4 && s.toApp[3] == ReplyByte(Succeeded) ==> s.verdict == Some(Succeeded))
            && (|s.toApp| > 12 ==> s.verdict == Some(Succeeded) && s.toApp[12..] <= target)
            && (s.downComplete && s.toAppClosed ==> s.toApp == AppAll(Succeeded, target))
  {
    RunKeepsInv(app, target, steps);
    AppViewMeaning(Run(app, target, steps).value.toApp, Run(app, target, steps).value.verdict, target);
  }

  // --------------------------------------------------------- a run that delivers it all

  ghost predicate Reaches(s: Session) {
    exists steps :: Run(s.app, s.target, steps) == Some(s)
  }

  lemma Step(s: Session, a: Action) returns (t: Session)
    requires Reaches(s) && Enabled(s, a)
    ensures t == Apply(s, a) && Reaches(t)
  {
    t := Apply(s, a);
    var steps :| Run(s.app, s.target, steps) == Some(s);
    assert (steps + [a])[..|steps|] == steps;
    assert Run(t.app, t.target, steps + [a]) == Some(t);
  }

  lemma AskedReached(app: seq<byte>, target: seq<byte>) returns (s: Session)
    requires Handshake(app).Some?
    ensures var (request, n) := Handshake(app).value;
            && Reaches(s)
            && s == Start(app, target).(client := AwaitStatus(request), appRead := n, up := RequestPart(app),
                                        toApp := METHOD_NONE)
  {
    var start := Start(app, target);
    assert Run(app, target, []) == Some(start);
    s := Step(start, Client(Negotiate));
    assert start.toApp + METHOD_NONE == METHOD_NONE && start.up + RequestPart(app) == RequestPart(app);
    s := Step(s, Client(ReadConnect));
    s := Step(s, Client(SendRequest));
  }

  lemma ServedReached(s: Session) returns (t: Session)
    requires Handshake(s.app).Some? && Reaches(s)
    requires var (request, n) := Handshake(s.app).value;
             s == Start(s.app, s.target).(client := AwaitStatus(request), appRead := n, up := RequestPart(s.app),
                                          toApp := METHOD_NONE)
    ensures Reaches(t) && t == s.(server := Serving, upRead := |RequestPart(s.app)|, verdict := Some(Succeeded),
                                  down := ResponseBytes(Succeeded))
  {
    RequestRoundTrip(Handshake(s.app).value.0, []);
    assert RequestPart(s.app) + [] == RequestPart(s.app)
           && s.down + ResponseBytes(Succeeded) == ResponseBytes(Succeeded);
    t := Step(s, Server(ReadRequest));
    t := Step(t, Server(Connected));
  }

  lemma RepliedReached(s: Session) returns (t: Session)
    requires Reaches(s) && s.client.AwaitStatus? && s.down == ResponseBytes(Succeeded) && s.toApp == METHOD_NONE
    ensures Reaches(t)
    ensures t == s.(client := Relaying, downRead := 8, upEnded := false, toApp := METHOD_NONE + ReplyBytes(Succeeded))
  {
    ResponseRoundTrip(Succeeded, []);
    assert ResponseBytes(Succeeded) + [] == ResponseBytes(Succeeded);
    t := Step(s, Client(ReadStatus));
    t := Step(t, Client(Reply));
  }

  lemma SentReached(s: Session) returns (t: Session)
    requires Reaches(s) && s.client.Relaying? && !s.upComplete && s.appRead <= |s.app|
    ensures Reaches(t) && t.up == s.up + s.app[s.appRead..]
    ensures t == s.(up := t.up, appRead := t.appRead, upComplete := true, upEnded := true)
  {
    var bytes := s.app[s.appRead..];
    t := s;
    if bytes != [] {
      t := Step(t, Client(RelayUp(bytes)));
    } else {
      assert s.up + bytes == s.up;
    }
    t := Step(t, Client(FinishUp));
  }

  lemma DeliveredReached(s: Session) returns (t: Session)
    requires Reaches(s) && s.server.Serving? && s.upEnded && !s.toTargetClosed && s.upRead <= |s.up|
    ensures Reaches(t) && t.toTarget == s.toTarget + s.up[s.upRead..]
    ensures t == s.(toTarget := t.toTarget, upRead := t.upRead, toTargetClosed := true)
  {
    var bytes := s.up[s.upRead..];
    t := s;
    if bytes != [] {
      t := Step(t, Server(RelayToTarget(bytes)));
    } else {
      assert s.toTarget + bytes == s.toTarget;
    }
    t := Step(t, Server(CloseTarget));
  }

  lemma UpReached(s: Session) returns (t: Session)
    requires Reaches(s) && s.client.Relaying? && s.server.Serving? && !s.upComplete && !s.toTargetClosed
    requires s.appRead <= |s.app| && s.upRead == |s.up| && s.toTarget == []
    ensures Reaches(t) && t.toTarget == s.app[s.appRead..] && t.upComplete && t.toTargetClosed
    ensures t == s.(up := t.up, appRead := t.appRead, upComplete := true, upEnded := true,
                    toTarget := t.toTarget, upRead := t.upRead, toTargetClosed := true)
  {
    var bytes := s.app[s.appRead..];
    t := SentReached(s);
    assert (s.up + bytes)[|s.up|..] == bytes && [] + bytes == bytes;
    t := DeliveredReached(t);
  }

  lemma DownReached(s: Session) returns (t: Session)
    requires Reaches(s) && s.client.Relaying? && s.server.Serving? && !s.downComplete && !s.toAppClosed
    requires s.targetRead == 0 && s.downRead == |s.down|
    ensures Reaches(t) && t.toApp == s.toApp + s.target && t.downComplete && t.toAppClosed
    ensures t.toTarget == s.toTarget && t.upComplete == s.upComplete && t.toTargetClosed == s.toTargetClosed
    ensures t.app == s.app && t.target == s.target
  {
    var bytes := s.target;
    assert s.target[0..] == bytes;
    t := s;
    if bytes != [] {
      t := Step(t, Server(RelayFromTarget(bytes)));
      assert t.down[t.downRead..] == bytes;
    }
    t := Step(t, Server(FinishDown));
    if bytes != [] {
      t := Step(t, Client(RelayDown(bytes)));
    } else {
      assert s.toApp + bytes == s.toApp;
    }
    t := Step(t, Client(CloseApp));
  }

  /** For whatever is asked for and sent, some run delivers all of it both ways and closes cleanly. */
  lemma EverythingCanArrive(app: seq<byte>, target: seq<byte>)
    requires Handshake(app).Some?
    ensures exists s :: Reaches(s) && s.app == app && s.target == target && s.upComplete && s.toTargetClosed
                        && s.downComplete && s.toAppClosed
                        && s.toTarget == Payload(app) && s.toApp == AppAll(Succeeded, target)
  {
    var s := AskedReached(app, target);
    s := ServedReached(s);
    s := RepliedReached(s);
    s := UpReached(s);
    s := DownReached(s);
  }
}

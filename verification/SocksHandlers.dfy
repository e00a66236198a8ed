/**
 The steps of both ends of a SOCKS connection, from the greeting to the relay. What a peer or
 the network does at each await is a parameter; a timeout that strikes during a write shows
 as that write cut short.
 */
module SocksHandlers {
  import opened Bytes
  import opened Streams
  import opened Socks5
  import opened Tunnel
  import opened SocksTunnel

  // ------------------------------------------------------------------ target policy

  datatype SocketAddr = SocketAddr(ip: TargetAddr, port: u16)

  /** Whether the server may connect to an address: all are allowed, or only those judged public. */
  datatype Policy = Policy(allowPrivate: bool, isPublic: TargetAddr -> bool) {
    predicate Allows(ip: TargetAddr) {
      allowPrivate || isPublic(ip)
    }
  }

  method SelectAllowedResolvedAddr(policy: Policy, addrs: seq<SocketAddr>)
    returns (selected: Result<SocketAddr, ReplyCode>)
    ensures match selected
            case Ok(addr) =>
              exists i :: 0 <= i < |addrs| && addr == addrs[i] && policy.Allows(addr.ip)
                          && forall j :: 0 <= j < i ==> !policy.Allows(addrs[j].ip)
            case Err(code) =>
              && (forall j :: 0 <= j < |addrs| ==> !policy.Allows(addrs[j].ip))
              && code == if addrs == [] then HostUnreachable else ConnectionNotAllowed
  {
    var sawDenied := false;
    for i := 0 to |addrs|
      invariant sawDenied <==> i > 0
      invariant forall j :: 0 <= j < i ==> !policy.Allows(addrs[j].ip)
    {
      if policy.Allows(addrs[i].ip) {
        return Ok(addrs[i]);
      }
      sawDenied := true;
    }
    return Err(if sawDenied then ConnectionNotAllowed else HostUnreachable);
  }

  /** How a name lookup ends. */
  datatype Lookup = Resolved(addrs: seq<SocketAddr>) | LookupFailed | LookupTimedOut

  datatype ErrorKind = Refused | NotFound | ConnectTimedOut | AddrNotAvailable | Unreachable | Other

  /** How a connect to the target ends. */
  datatype Connect = ConnectsTo | ConnectFails(kind: ErrorKind) | ConnectTimesOut

  function MapConnectError(kind: ErrorKind): ReplyCode {
    match kind
    case Refused => ReplyCode.ConnectionRefused
    case NotFound => HostUnreachable
    case ConnectTimedOut => TtlExpired
    case AddrNotAvailable => HostUnreachable
    case Unreachable => NetworkUnreachable
    case Other => GeneralFailure
  }

  function ConnectCode(connect: Connect): ReplyCode {
    match connect
    case ConnectsTo => Succeeded
    case ConnectFails(kind) => MapConnectError(kind)
    case ConnectTimesOut => TtlExpired
  }

  /** An address the server may connect to for that request. */
  ghost predicate MayDial(policy: Policy, request: ConnectRequest, lookup: Lookup, addr: SocketAddr)
  {
    && policy.Allows(addr.ip)
    && if request.target.Domain? then lookup.Resolved? && addr in lookup.addrs
       else addr == SocketAddr(request.target, request.port)
  }

  /** The refusal when nothing may be dialled: a name without addresses is unreachable, not forbidden. */
  function Refusal(request: ConnectRequest, lookup: Lookup): ReplyCode {
    if !request.target.Domain? then ConnectionNotAllowed
    else
      match lookup
      case LookupFailed => HostUnreachable
      case LookupTimedOut => TtlExpired
      case Resolved(addrs) => if addrs == [] then HostUnreachable else ConnectionNotAllowed
  }

  method ResolveAllowedTarget(policy: Policy, request: ConnectRequest, lookup: Lookup)
    returns (target: Result<SocketAddr, ReplyCode>)
    ensures match target
            case Ok(addr) => MayDial(policy, request, lookup, addr)
            case Err(code) => code == Refusal(request, lookup) && forall addr :: !MayDial(policy, request, lookup, addr)
  {
    if !request.target.Domain? {
      return if policy.Allows(request.target) then Ok(SocketAddr(request.target, request.port))
             else Err(ConnectionNotAllowed);
    }
    match lookup
    case LookupFailed => return Err(HostUnreachable);
    case LookupTimedOut => return Err(TtlExpired);
    case Resolved(addrs) => target := SelectAllowedResolvedAddr(policy, addrs);
  }

  // --------------------------------------------------------------------- the server

  datatype ServerEvents = ServerEvents(requestTimesOut: bool, lookup: Lookup, connect: Connect)

  /** Which of section 6's codes tells of a failed connect, and which of a refusal to connect. */
  lemma ConnectCodeMeaning(connect: Connect)
    ensures ReplyByte(ConnectCode(connect)) ==
            match connect
            case ConnectsTo => 0
            case ConnectTimesOut => 6
            case ConnectFails(Refused) => 5
            case ConnectFails(NotFound) => 4
            case ConnectFails(ConnectTimedOut) => 6
            case ConnectFails(AddrNotAvailable) => 4
            case ConnectFails(Unreachable) => 3
            case ConnectFails(Other) => 1
  {
  }

  lemma RefusalMeaning(request: ConnectRequest, lookup: Lookup)
    ensures ReplyByte(Refusal(request, lookup)) ==
            if request.target.Domain? && lookup.LookupTimedOut? then 6
            else if request.target.Domain? && (lookup.LookupFailed? || lookup.addrs == []) then 4
            else 2
  {
  }

  function AnswerCode(dialled: Option<SocketAddr>, request: ConnectRequest, events: ServerEvents): ReplyCode {
    if dialled.None? then Refusal(request, events.lookup) else ConnectCode(events.connect)
  }

  method WriteResponseAndFinish(send: Writer, code: ReplyCode)
    modifies send
    ensures old(send.output) <= send.output <= old(send.output) + ResponseBytes(code)
    ensures send.finished ==> old(send.finished) || send.output == old(send.output) + ResponseBytes(code)
    ensures old(send.Reliable()) ==> send.output == old(send.output) + ResponseBytes(code) && send.finished
  {
    var ok := WriteResponse(send, code);
    if ok {
      send.Finish();
    }
  }

  /**
   How a server may leave a stream that carries those bytes: the address it connected to, whether
   a relay started, and the bytes it sent.
   */
  ghost predicate ServerOutcome(stream: seq<byte>, policy: Policy, events: ServerEvents,
                                dialled: Option<SocketAddr>, established: bool, down: seq<byte>)
  {
    if events.requestTimesOut || RequestOutcome(stream).Err? then dialled.None? && !established && down == []
    else
      var request := RequestOutcome(stream).value.0;
      && (match dialled
          case Some(addr) => MayDial(policy, request, events.lookup, addr)
          case None => forall addr :: !MayDial(policy, request, events.lookup, addr))
      && down <= ResponseBytes(AnswerCode(dialled, request, events))
      && (established ==> dialled.Some? && events.connect.ConnectsTo? && down == ResponseBytes(Succeeded))
  }

  /**
   A server that does not allow private addresses connects to public ones only, and one with a
   public address to connect to connects; one that allows all connects wherever there is an address.
   */
  lemma DialledMeaning(stream: seq<byte>, policy: Policy, events: ServerEvents,
                       dialled: Option<SocketAddr>, established: bool, down: seq<byte>, addr: SocketAddr)
    requires ServerOutcome(stream, policy, events, dialled, established, down)
    requires !events.requestTimesOut && RequestOutcome(stream).Ok?
    requires var request := RequestOutcome(stream).value.0;
             if request.target.Domain? then events.lookup.Resolved? && addr in events.lookup.addrs
             else addr == SocketAddr(request.target, request.port)
    ensures dialled.Some? && !policy.allowPrivate ==> policy.isPublic(dialled.value.ip)
    ensures policy.allowPrivate || policy.isPublic(addr.ip) ==> dialled.Some?
  {
    if policy.allowPrivate || policy.isPublic(addr.ip) {
      assert MayDial(policy, RequestOutcome(stream).value.0, events.lookup, addr);
    }
  }

  /**
   Reads a request, connects and answers. `dialled` is the address connected to, if any:
   always one that the policy allows and the request asked for. A success response is
   written only once connected, and then the relay starts right behind the request.
   */
  method ServeTunnelRequest(recv: Reader, send: Writer, policy: Policy, events: ServerEvents)
    returns (dialled: Option<SocketAddr>, established: bool)
    requires recv.Valid() && recv.Settled() && send.output == [] && !send.finished
    modifies recv`buffer, recv`fetched, send
    ensures recv.Valid()
    ensures ServerOutcome(old(recv.Rest()), policy, events, dialled, established, send.output)
    ensures established ==>
              && !send.finished && recv.Settled()
              && recv.Rest() == old(recv.Rest())[RequestOutcome(old(recv.Rest())).value.1..]
    ensures old(send.Reliable()) && !events.requestTimesOut && RequestOutcome(old(recv.Rest())).Ok? ==>
              var request := RequestOutcome(old(recv.Rest())).value.0;
              && send.output == ResponseBytes(AnswerCode(dialled, request, events))
              && established == (dialled.Some? && events.connect.ConnectsTo?)
    ensures send.finished ==> !established
    ensures old(send.Reliable()) ==>
              send.finished == (events.requestTimesOut || (RequestOutcome(old(recv.Rest())).Ok? && !established))
  {
    dialled, established := None, false;
    if events.requestTimesOut {
      send.Finish();
      return;
    }
    var request := Tunnel.ReadRequest(recv);
    if request.Err? {
      return;
    }
    var target := ResolveAllowedTarget(policy, request.value, events.lookup);
    if target.Err? {
      WriteResponseAndFinish(send, target.error);
      OnlyPart([], ResponseBytes(target.error));
      return;
    }
    dialled := Some(target.value);
    OnlyPart([], ResponseBytes(ConnectCode(events.connect)));
    match events.connect
    case ConnectFails(kind) => WriteResponseAndFinish(send, MapConnectError(kind));
    case ConnectTimesOut => WriteResponseAndFinish(send, TtlExpired);
    case ConnectsTo => established := WriteResponse(send, Succeeded);
  }

  lemma OnlyPart(start: seq<byte>, bytes: seq<byte>)
    ensures start == [] ==> start + bytes == bytes
  {
  }

  // --------------------------------------------------------------------- the client

  /** How the wait for the tunnel ends at each step. */
  datatype Await = Completes | Fails | TimesOut

  datatype ClientEvents = ClientEvents(
    greetingTimesOut: bool, connectTimesOut: bool, open: Await, sendTimesOut: bool, statusTimesOut: bool)

  /** What the application may see of a handshake that yields no request. */
  predicate HandshakeView(app: seq<byte>, toApp: seq<byte>)
  {
    match GreetingOutcome(app)
    case Err(_) => toApp <= METHOD_UNACCEPTABLE
    case Ok(greeting) =>
      || toApp <= METHOD_NONE
      || (ConnectOutcome(app[greeting..]).Err?
          && METHOD_NONE <= toApp <= METHOD_NONE + ReplyBytes(ErrorReply(ConnectOutcome(app[greeting..]).error)))
  }

  /** What section 6 of RFC 1928 has for a CONNECT request with that error. */
  function RefusedRequest(error: SocksError): seq<byte> {
    [5, if error.UnsupportedCommand? then 7 else if error.UnsupportedAddressType? then 8 else 1, 0, 1, 0, 0, 0, 0, 0, 0]
  }

  /**
   What the handshake is answered with if no write fails: `05 FF` where no method is acceptable,
   `05 00` to a greeting that offers "no authentication", and behind it the ten bytes that the
   error of a CONNECT request calls for. What is no greeting is not answered.
   */
  function HandshakeAnswer(app: seq<byte>, events: ClientEvents): seq<byte>
  {
    if events.greetingTimesOut then []
    else
      match GreetingOutcome(app)
      case Err(NoSupportedAuthMethod) => [5, 255]
      case Err(_) => []
      case Ok(greeting) =>
        if events.connectTimesOut || ConnectOutcome(app[greeting..]).Ok? then [5, 0]
        else [5, 0] + RefusedRequest(ConnectOutcome(app[greeting..]).error)
  }

  /** The reply to an application whose request was read. */
  function ReplyFor(sent: bool, down: seq<byte>, events: ClientEvents): ReplyCode {
    if events.open.Fails? then GeneralFailure
    else if events.open.TimesOut? then TtlExpired
    else if !sent then if events.sendTimesOut then TtlExpired else GeneralFailure
    else if events.statusTimesOut then TtlExpired
    else if ResponseOutcome(down).Ok? then ResponseOutcome(down).value
    else GeneralFailure
  }

  /** A timeout is told as one, a failure as a general one, and a status that could be read as it is. */
  lemma ReplyForMeaning(sent: bool, down: seq<byte>, events: ClientEvents)
    ensures var isOpen := events.open.Completes?;
            var timesOut := if isOpen then (if sent then events.statusTimesOut else events.sendTimesOut)
                            else events.open.TimesOut?;
            ReplyByte(ReplyFor(sent, down, events)) ==
            if timesOut then 6
            else if isOpen && sent && ResponseOutcome(down).Ok? then ReplyByte(ResponseOutcome(down).value)
            else 1
  {
  }

  /**
   How a client may leave both its streams before the relay: whether the request was sent whole,
   whether a relay starts, and what the application and the tunnel hold by then. `down` is all
   that comes down the tunnel.
   */
  predicate ClientOutcome(app: seq<byte>, down: seq<byte>, events: ClientEvents,
                          sent: bool, established: bool, toApp: seq<byte>, up: seq<byte>)
  {
    || (HandshakeView(app, toApp) && up == [] && !sent && !established)
    || (&& Handshake(app).Some?
        && up <= RequestPart(app) && (sent ==> up == RequestPart(app))
        && METHOD_NONE <= toApp <= METHOD_NONE + ReplyBytes(ReplyFor(sent, down, events))
        && (established ==> sent && ReplyFor(sent, down, events) == Succeeded
                            && toApp == METHOD_NONE + ReplyBytes(Succeeded)))
  }

  /** The tunnel stream is finished if the request could not be sent in time, or a failure status was read. */
  predicate EndsRequest(sent: bool, down: seq<byte>, events: ClientEvents) {
    if sent then !events.statusTimesOut && ResponseOutcome(down).Ok? && ResponseOutcome(down).value != Succeeded
    else events.sendTimesOut
  }

  /** Sends the request, reads the status and passes it on. */
  method RequestStatus(localOut: Writer, send: Writer, recv: Reader, request: ConnectRequest, events: ClientEvents)
    returns (sent: bool, established: bool)
    requires recv.Valid() && recv.Settled() && localOut != send && IsEncodable(request.target) && events.open.Completes?
    requires localOut.output == METHOD_NONE && send.output == [] && !send.finished
    modifies recv`buffer, recv`fetched, localOut, send
    ensures recv.Valid()
    ensures send.output <= RequestBytes(request) && (sent ==> send.output == RequestBytes(request))
    ensures METHOD_NONE <= localOut.output <= METHOD_NONE + ReplyBytes(ReplyFor(sent, old(recv.Rest()), events))
    ensures established ==>
              && sent && ReplyFor(sent, old(recv.Rest()), events) == Succeeded && recv.Rest() == old(recv.Rest())[8..]
              && localOut.output == METHOD_NONE + ReplyBytes(Succeeded) && !send.finished
    ensures old(send.Reliable()) ==> sent
    ensures old(localOut.Reliable()) ==>
              && localOut.output == METHOD_NONE + ReplyBytes(ReplyFor(sent, old(recv.Rest()), events))
              && established == (ReplyFor(sent, old(recv.Rest()), events) == Succeeded)
              && send.finished == EndsRequest(sent, old(recv.Rest()), events)
  {
    sent, established := false, false;
    OnlyPart([], RequestBytes(request));
    var written := WriteRequest(send, request);
    if written.Err? {
      if events.sendTimesOut {
        send.Finish();
      }
      var _ := WriteReply(localOut, if events.sendTimesOut then TtlExpired else GeneralFailure);
      return;
    }
    sent := true;
    if events.statusTimesOut {
      var _ := WriteReply(localOut, TtlExpired);
      return;
    }
    ghost var down := recv.Rest();
    var status := ReadResponse(recv);
    var ok := WriteReply(localOut, if status.Ok? then status.value else GeneralFailure);
    if status.Err? || !ok {
      return;
    }
    if status.value != Succeeded {
      send.Finish();
      return;
    }
    established := true;
  }

  /** Reads the CONNECT request; a wrong one is answered. */
  method ReadConnectOrRefuse(localIn: Reader, localOut: Writer) returns (request: Option<ConnectRequest>)
    requires localIn.Valid() && localIn.Settled()
    modifies localIn`buffer, localIn`fetched, localOut`output, localOut`outcomes
    ensures localIn.Valid()
    ensures match ConnectOutcome(old(localIn.Rest()))
            case Ok((read, n)) =>
              && request == Some(read) && localIn.Rest() == old(localIn.Rest())[n..]
              && localOut.output == old(localOut.output)
            case Err(error) =>
              && request == None
              && old(localOut.output) <= localOut.output <= old(localOut.output) + ReplyBytes(ErrorReply(error))
              && (old(localOut.Reliable()) ==> localOut.output == old(localOut.output) + RefusedRequest(error))
    ensures old(localOut.Reliable()) ==> localOut.Reliable()
  {
    var read := ReadConnectRequest(localIn);
    if read.Err? {
      var _ := WriteReply(localOut, ErrorReply(read.error));
      return None;
    }
    return Some(read.value);
  }

  /** Reads the greeting and the CONNECT request, answering the first and refusing what is wrong. */
  method ReadHandshake(localIn: Reader, localOut: Writer, events: ClientEvents)
    returns (request: Option<ConnectRequest>)
    requires localIn.Valid() && localIn.Settled() && localOut.output == []
    modifies localIn`buffer, localIn`fetched, localOut`output, localOut`outcomes
    ensures localIn.Valid()
    ensures request.None? ==> HandshakeView(old(localIn.Rest()), localOut.output)
    ensures request.Some? ==>
              && Handshake(old(localIn.Rest())).Some? && Handshake(old(localIn.Rest())).value.0 == request.value
              && localIn.Rest() == Payload(old(localIn.Rest())) && localOut.output == METHOD_NONE
    ensures old(localOut.Reliable()) ==>
              && (request.Some? ==> localOut.Reliable())
              && request.Some? == (Handshake(old(localIn.Rest())).Some?
                                 && !events.greetingTimesOut && !events.connectTimesOut)
    ensures old(localOut.Reliable()) ==> localOut.output == HandshakeAnswer(old(localIn.Rest()), events)
  {
    ghost var app := localIn.Rest();
    if events.greetingTimesOut {
      return None;
    }
    var done := NegotiateNoAuth(localIn, localOut);
    OnlyPart([], METHOD_NONE);
    OnlyPart([], METHOD_UNACCEPTABLE);
    if done.Err? || events.connectTimesOut {
      return None;
    }
    ghost var rest := localIn.Rest();
    request := ReadConnectOrRefuse(localIn, localOut);
    if request.Some? {
      DropTwice(app, GreetingOutcome(app).value, ConnectOutcome(rest).value.1);
    }
  }

  /**
   Everything before the relay. Once established, the application has exactly the method
   choice and a success reply, the tunnel exactly the request, and both relays start at the
   first byte behind: the payload going up, the target's bytes coming down.
   */
  method OpenSocksTunnel(localIn: Reader, localOut: Writer, send: Writer, recv: Reader, events: ClientEvents)
    returns (sent: bool, established: bool)
    requires localIn.Valid() && localIn.Settled() && recv.Valid() && recv.Settled() && localIn != recv
    requires localOut != send && localOut.output == [] && send.output == [] && !send.finished
    modifies localIn`buffer, localIn`fetched, recv`buffer, recv`fetched, localOut, send
    ensures localIn.Valid() && recv.Valid()
    ensures ClientOutcome(old(localIn.Rest()), old(recv.Rest()), events, sent, established,
                          localOut.output, send.output)
    ensures established ==>
              && !send.finished
              && localIn.Rest() == Payload(old(localIn.Rest())) && recv.Rest() == old(recv.Rest())[8..]
    ensures old(localOut.Reliable()) && Handshake(old(localIn.Rest())).Some?
            && !events.greetingTimesOut && !events.connectTimesOut ==>
              && (old(send.Reliable()) && events.open.Completes? ==> sent)
              && localOut.output == METHOD_NONE + ReplyBytes(ReplyFor(sent, old(recv.Rest()), events))
              && established == (ReplyFor(sent, old(recv.Rest()), events) == Succeeded)
              && send.finished == (events.open.Completes? && EndsRequest(sent, old(recv.Rest()), events))
    ensures old(localOut.Reliable())
            && (Handshake(old(localIn.Rest())).None? || events.greetingTimesOut || events.connectTimesOut) ==>
              localOut.output == HandshakeAnswer(old(localIn.Rest()), events)
  {
    sent, established := false, false;
    var request := ReadHandshake(localIn, localOut, events);
    if request.None? {
      return;
    }
    match events.open
    case Fails => var _ := WriteReply(localOut, GeneralFailure);
    case TimesOut => var _ := WriteReply(localOut, TtlExpired);
    case Completes => sent, established := RequestStatus(localOut, send, recv, request.value, events);
  }

  // ---------------------------------------------------------------------- the relay

  /** Copies until the end of input or an error. */
  method Copy(input: Reader, output: Writer) returns (ok: bool)
    requires input.Valid()
    modifies input`buffer, input`fetched, output`output, output`outcomes
    ensures input.Valid()
    ensures old(output.output) <= output.output <= old(output.output) + old(input.Rest())
    ensures ok ==> output.output == old(output.output) + old(input.Rest()) && input.Rest() == [] && input.end.Eof?
    ensures old(output.Reliable()) ==> ok == input.end.Eof?
  {
    ghost var start, all := output.output, input.Rest();
    while true
      invariant old(output.Reliable()) ==> output.Reliable()
      invariant input.Valid() && start <= output.output
      invariant output.output + input.Rest() == start + all
      decreases |input.Rest()|
    {
      ok := input.FillBuf();
      if !ok {
        return;
      }
      if input.buffer == [] {
        return;
      }
      var piece := input.buffer;
      ghost var behind := input.Rest()[|piece|..];
      assert input.Rest() == piece + behind;
      Regroup(output.output, piece, behind);
      ok := output.WriteAll(piece);
      if !ok {
        return;
      }
      input.Consume(|piece|);
    }
  }

  /** One direction of a relay: the far end is closed only behind every byte of a clean end. */
  method CopyThenClose(input: Reader, output: Writer) returns (ok: bool)
    requires input.Valid() && !output.finished
    modifies input`buffer, input`fetched, output
    ensures input.Valid()
    ensures old(output.output) <= output.output <= old(output.output) + old(input.Rest())
    ensures ok == output.finished
    ensures output.finished ==> output.output == old(output.output) + old(input.Rest()) && input.end.Eof?
    ensures old(output.Reliable()) ==> ok == input.end.Eof?
  {
    ok := Copy(input, output);
    if ok {
      output.Finish();
    }
  }
}

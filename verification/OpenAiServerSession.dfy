/**
 One OpenAI stream on the server: read the request, answer the health check, forward the
 request to the provider, copy its response back. What the provider and the timeouts do are
 parameters, so the contracts hold over every sequence of events.
 */
module OpenAiServerSession {
  import opened Bytes
  import opened Streams
  import opened HttpHead
  import opened HttpHeaders
  import opened HttpRequest
  import opened HttpResponse
  import opened HttpDecoding
  import opened Rfc3986
  import opened ProviderUrl
  import OpenAiClientSession

  type OwnReply = OpenAiClientSession.OwnReply

  // -------------------------------------------------------------- request headers

  predicate ShouldForwardRequestHeader(name: seq<byte>)
  {
    name !in [Ascii("host"), Ascii("content-length"), Ascii("connection"), Ascii("transfer-encoding"),
              Ascii("keep-alive"), Ascii("proxy-authenticate"), Ascii("proxy-authorization"), Ascii("te"),
              Ascii("trailer"), Ascii("upgrade")]
  }

  /** Of a request all fields but those meant for one connection, its length and its host are passed on. */
  lemma RequestFilterMeaning(name: seq<byte>)
    ensures ShouldForwardRequestHeader(name) <==>
            name !in HopByHop() && name != Ascii("content-length") && name != Ascii("host")
    ensures ShouldForwardRequestHeader(Ascii("authorization")) && ShouldForwardRequestHeader(Ascii("content-type"))
  {
  }

  /** The values of that name, in order. */
  function ValuesOf(headers: seq<Header>, name: seq<byte>): seq<seq<byte>>
  {
    if headers == [] then []
    else (if headers[0].name == name then [headers[0].value] else []) + ValuesOf(headers[1..], name)
  }

  lemma {:induction false} ValuesOfAppend(left: seq<Header>, right: seq<Header>, name: seq<byte>)
    ensures ValuesOf(left + right, name) == ValuesOf(left, name) + ValuesOf(right, name)
  {
    if left == [] {
      assert left + right == right;
    } else {
      ValuesOfAppend(left[1..], right, name);
      assert (left + right)[1..] == left[1..] + right;
      Regroup(if left[0].name == name then [left[0].value] else [], ValuesOf(left[1..], name), ValuesOf(right, name));
    }
  }

  function Named(name: seq<byte>, values: seq<seq<byte>>): seq<Header>
  {
    seq(|values|, i requires 0 <= i < |values| => Header(name, values[i]))
  }

  lemma {:induction false} ValuesOfNamed(name: seq<byte>, values: seq<seq<byte>>, wanted: seq<byte>)
    ensures ValuesOf(Named(name, values), wanted) == if wanted == name then values else []
  {
    if values != [] {
      ValuesOfNamed(name, values[1..], wanted);
      assert Named(name, values)[1..] == Named(name, values[1..]);
    }
  }

  /** `names` lists every header name once, in any order: how a header map iterates its keys. */
  ghost predicate ListsNames(names: seq<seq<byte>>, headers: seq<Header>) {
    && (forall h :: h in headers ==> h.name in names)
    && forall i, j :: 0 <= i < j < |names| ==> names[i] != names[j]
  }

  /** Every value of a forwarded name is kept in order; the other names disappear. */
  method ProviderHeaders(headers: seq<Header>, names: seq<seq<byte>>) returns (forwarded: seq<Header>)
    requires ListsNames(names, headers)
    ensures forall name :: ValuesOf(forwarded, name) ==
                           if ShouldForwardRequestHeader(name) then ValuesOf(headers, name) else []
  {
    forwarded := [];
    for i := 0 to |names|
      invariant forall name :: ValuesOf(forwarded, name) ==
                               if name in names[..i] && ShouldForwardRequestHeader(name) then
                                ValuesOf(headers, name) else []
    {
      assert names[..i + 1] == names[..i] + [names[i]];
      if ShouldForwardRequestHeader(names[i]) {
        var values := ValuesOf(headers, names[i]);
        ghost var before := forwarded;
        forall name ensures ValuesOf(before + Named(names[i], values), name)
                            == ValuesOf(before, name) + if name == names[i] then values else []
        {
          ValuesOfAppend(before, Named(names[i], values), name);
          ValuesOfNamed(names[i], values, name);
        }
        forwarded := forwarded + Named(names[i], values);
      }
    }
    assert names[..|names|] == names;
    forall name | name !in names ensures ValuesOf(headers, name) == [] {
      NoValuesOutside(headers, names, name);
    }
  }

  /** The distinct header names. */
  method HeaderNames(headers: seq<Header>) returns (names: seq<seq<byte>>)
    ensures ListsNames(names, headers)
  {
    names := [];
    for i := 0 to |headers|
      invariant ListsNames(names, headers[..i])
    {
      assert headers[..i + 1] == headers[..i] + [headers[i]];
      if headers[i].name !in names {
        names := names + [headers[i].name];
      }
    }
    assert headers[..|headers|] == headers;
  }

  lemma {:induction false} NoValuesOutside(headers: seq<Header>, names: seq<seq<byte>>, name: seq<byte>)
    requires name !in names && forall h :: h in headers ==> h.name in names
    ensures ValuesOf(headers, name) == []
  {
    if headers != [] {
      assert headers[0] in headers && forall h :: h in headers[1..] ==> h in headers;
      NoValuesOutside(headers[1..], names, name);
    }
  }

  // ------------------------------------------------------------------- the replies

  const HEALTH_TARGET: seq<byte> := Ascii("/__tunnelAI/healthz")

  predicate IsHealthRequest(request: Request) {
    request.method_ == Ascii("GET") && request.target == HEALTH_TARGET
  }

  datatype ProviderAnswer = Answered(response: ProviderResponse) | SendFailed | SendTimedOut

  /** The events around the session's own steps. */
  datatype Events = Events(noPermit: bool, requestTimesOut: bool, foreignUrlParses: bool, answer: ProviderAnswer)

  datatype Reply = Own(reply: OwnReply) | Forwarded(response: ProviderResponse) {
    function Bytes(): seq<byte> {
      match this
      case Own(reply) => reply.Bytes()
      case Forwarded(response) => ForwardedMessage(response)
    }
  }

  const REQUEST_TIMEOUT: OwnReply := OpenAiClientSession.REQUEST_TIMEOUT
  const TOO_MANY_STREAMS: OwnReply :=
    OpenAiClientSession.OwnReply(503, Ascii("Service Unavailable"), Ascii("too many open streams"))
  const HEALTHY: OwnReply := OpenAiClientSession.OwnReply(200, Ascii("OK"), Ascii("ok\n"))
  const BAD_URL: OwnReply := OpenAiClientSession.OwnReply(400, Ascii("Bad Request"), Ascii("bad request"))
  const REQUEST_FAILED: OwnReply :=
    OpenAiClientSession.OwnReply(502, Ascii("Bad Gateway"), Ascii("provider request failed"))
  const RESPONSE_FAILED: OwnReply :=
    OpenAiClientSession.OwnReply(502, Ascii("Bad Gateway"), Ascii("provider response failed"))
  const PROVIDER_TIMEOUT: OwnReply :=
    OpenAiClientSession.OwnReply(504, Ascii("Gateway Timeout"), Ascii("provider request timed out"))

  /** The provider's body fails before its first chunk: nothing has been forwarded yet. */
  predicate FailsBeforeFirstChunk(response: ProviderResponse) {
    response.chunks == [] && response.end.Broken?
  }

  predicate UrlFails(mapping: Mapping, foreignUrlParses: bool) {
    mapping.Rejected? || (mapping.Foreign? && !foreignUrlParses)
  }

  /** What is sent to the provider. */
  datatype ProviderRequest = ProviderRequest(method_: seq<byte>, destination: Mapping,
                                             headers: seq<Header>, body: seq<byte>)

  /** Same method and body, the target mapped onto the base, hop-by-hop headers left out. */
  method BuildProviderRequest(base: Url, request: Request, foreignUrlParses: bool)
    returns (built: Option<ProviderRequest>)
    ensures built.None? <==> UrlFails(MapTarget(base, request.target), foreignUrlParses)
    ensures built.Some? ==>
              && built.value.method_ == request.method_ && built.value.body == request.body
              && built.value.destination == MapTarget(base, request.target)
              && forall name :: ValuesOf(built.value.headers, name) ==
                                if ShouldForwardRequestHeader(name) then ValuesOf(request.headers, name) else []
  {
    var mapping := ProviderRequestUrlFromBase(base, request.target);
    if UrlFails(mapping, foreignUrlParses) {
      return None;
    }
    var names := HeaderNames(request.headers);
    var headers := ProviderHeaders(request.headers, names);
    return Some(ProviderRequest(request.method_, mapping, headers, request.body));
  }

  function AnswerReply(answer: ProviderAnswer): Reply {
    match answer
    case SendFailed => Own(REQUEST_FAILED)
    case SendTimedOut => Own(PROVIDER_TIMEOUT)
    case Answered(response) => if FailsBeforeFirstChunk(response) then Own(RESPONSE_FAILED) else Forwarded(response)
  }

  function ReplyToRequest(base: Url, request: Request, events: Events): Reply
  {
    if IsHealthRequest(request) then Own(HEALTHY)
    else if UrlFails(MapTarget(base, request.target), events.foreignUrlParses) then Own(BAD_URL)
    else AnswerReply(events.answer)
  }

  /** The one reply of a stream. */
  function StreamReply(base: Url, request: Result<Request, HttpRequestError>, events: Events): Reply
  {
    if events.noPermit then Own(TOO_MANY_STREAMS)
    else if events.requestTimesOut then Own(REQUEST_TIMEOUT)
    else if request.Err? then Own(OpenAiClientSession.ErrorReply(request.error))
    else ReplyToRequest(base, request.value, events)
  }

  /** Which reply each course of events leads to. */
  lemma StreamReplyMeaning(base: Url, request: Result<Request, HttpRequestError>, events: Events)
    ensures var reply := StreamReply(base, request, events);
            if events.noPermit then reply.Own? && reply.reply.status == 503
            else if events.requestTimesOut then reply.Own? && reply.reply.status == 408
            else if request.Err? then reply == Own(OpenAiClientSession.ErrorReply(request.error))
            else if request.value.method_ == Ascii("GET") && request.value.target == Ascii("/__tunnelAI/healthz") then
              reply.Own? && reply.reply.status == 200 && reply.reply.body == Ascii("ok\n")
            else
              match MapTarget(base, request.value.target)
              case Rejected => reply.Own? && reply.reply.status == 400
              case Foreign =>
                if events.foreignUrlParses then AnsweredBy(reply, events) else reply.Own? && reply.reply.status == 400
              case Mapped(_) => AnsweredBy(reply, events)
  {
  }

  /** The provider's answer is passed on, or its failure told as one. */
  predicate AnsweredBy(reply: Reply, events: Events)
  {
    match events.answer
    case SendFailed => reply.Own? && reply.reply.status == 502
    case SendTimedOut => reply.Own? && reply.reply.status == 504
    case Answered(response) =>
      if response.chunks == [] && response.end.Broken? then reply.Own? && reply.reply.status == 502
      else reply == Forwarded(response)
  }

  lemma OwnRepliesNameTheirStatus(error: HttpRequestError)
    ensures forall reply :: reply in [TOO_MANY_STREAMS, REQUEST_TIMEOUT, HEALTHY, BAD_URL, REQUEST_FAILED,
                                      RESPONSE_FAILED, PROVIDER_TIMEOUT, OpenAiClientSession.ErrorReply(error)] ==>
              OpenAiClientSession.NamesItsStatus(reply)
  {
  }

  lemma RepliesNameTheirStatus(base: Url, request: Result<Request, HttpRequestError>, events: Events)
    requires StreamReply(base, request, events).Own?
    ensures OpenAiClientSession.NamesItsStatus(StreamReply(base, request, events).reply)
  {
    OwnRepliesNameTheirStatus(if request.Err? then request.error else BadRequest);
    if !events.noPermit && !events.requestTimesOut && request.Ok? {
      var reply := ReplyToRequest(base, request.value, events);
      assert reply in [Own(HEALTHY), Own(BAD_URL), Own(REQUEST_FAILED), Own(PROVIDER_TIMEOUT), Own(RESPONSE_FAILED)];
    }
  }

  // --------------------------------------------------------------------- the steps

  method WriteReplyAndFinish(send: Writer, reply: OwnReply) returns (ok: bool)
    requires send.output == [] && !send.finished
    modifies send
    ensures send.output <= reply.Bytes()
    ensures ok ==> send.output == reply.Bytes()
    ensures send.finished <==> ok
    ensures old(send.Reliable()) ==> ok
  {
    assert [] + reply.Bytes() == reply.Bytes();
    ok := WritePlainResponse(send, reply.status, reply.reason, reply.body);
    if ok {
      send.Finish();
    }
  }

  method CopyProviderResponseAndFinish(send: Writer, response: ProviderResponse) returns (ok: bool)
    requires send.output == [] && !send.finished
    modifies send
    ensures var reply := if FailsBeforeFirstChunk(response) then Own(RESPONSE_FAILED) else Forwarded(response);
            && send.output <= reply.Bytes()
            && (ok ==> send.output == reply.Bytes() && (reply.Forwarded? ==> response.end.Ended?))
    ensures send.finished <==> ok
    ensures var reply := if FailsBeforeFirstChunk(response) then Own(RESPONSE_FAILED) else Forwarded(response);
            old(send.Reliable()) ==> send.output == reply.Bytes() && ok == (reply.Forwarded? ==> response.end.Ended?)
  {
    if FailsBeforeFirstChunk(response) {
      ok := WriteReplyAndFinish(send, RESPONSE_FAILED);
      return;
    }
    assert [] + ForwardedMessage(response) == ForwardedMessage(response);
    ok := WriteHttpResponse(send, response);
    if ok {
      send.Finish();
    }
  }

  method ForwardRequestToProvider(base: Url, request: Request, send: Writer, events: Events) returns (ok: bool)
    requires !IsHealthRequest(request)
    requires send.output == [] && !send.finished
    modifies send
    ensures var reply := ReplyToRequest(base, request, events);
            && send.output <= reply.Bytes()
            && (ok ==> send.output == reply.Bytes() && (reply.Forwarded? ==> reply.response.end.Ended?))
    ensures send.finished <==> ok
    ensures var reply := ReplyToRequest(base, request, events);
            old(send.Reliable()) ==>
              send.output == reply.Bytes() && ok == (reply.Forwarded? ==> reply.response.end.Ended?)
  {
    ghost var reply := ReplyToRequest(base, request, events);
    var built := BuildProviderRequest(base, request, events.foreignUrlParses);
    if built.None? {
      assert reply == Own(BAD_URL);
      ok := WriteReplyAndFinish(send, BAD_URL);
      return;
    }
    assert reply == AnswerReply(events.answer);
    match events.answer
    case SendFailed => ok := WriteReplyAndFinish(send, REQUEST_FAILED);
    case SendTimedOut => ok := WriteReplyAndFinish(send, PROVIDER_TIMEOUT);
    case Answered(response) => ok := CopyProviderResponseAndFinish(send, response);
  }

  /**
   Over every sequence of events the stream holds a prefix of exactly one reply: one plain
   response, or one forwarded head with its frames. It is finished only when that reply is
   complete, a forwarded one only after the provider's body ended.
   */
  method HandleOpenAiStream(g: Grammar, base: Url, reader: Reader, send: Writer, events: Events) returns (ok: bool)
    requires reader.Valid() && send.output == [] && !send.finished && !events.noPermit
    modifies reader`buffer, reader`fetched, send
    ensures var reply := StreamReply(base, ServerOutcome(g, old(reader.Rest()), reader.end), events);
            && send.output <= reply.Bytes()
            && (ok ==> send.output == reply.Bytes() && (reply.Forwarded? ==> reply.response.end.Ended?))
    ensures send.finished <==> ok
    ensures var reply := StreamReply(base, ServerOutcome(g, old(reader.Rest()), reader.end), events);
            old(send.Reliable()) ==>
              send.output == reply.Bytes() && ok == (reply.Forwarded? ==> reply.response.end.Ended?)
  {
    if events.requestTimesOut {
      ok := WriteReplyAndFinish(send, REQUEST_TIMEOUT);
      return;
    }
    var request := ReadHttpRequest(g, reader);
    if request.Err? {
      ok := WriteReplyAndFinish(send, OpenAiClientSession.ErrorReply(request.error));
      return;
    }
    if IsHealthRequest(request.value) {
      ok := WriteReplyAndFinish(send, HEALTHY);
      return;
    }
    ok := ForwardRequestToProvider(base, request.value, send, events);
  }

  /** A stream that finds no permit is answered and finished, whether or not the answer could be written. */
  method RefuseStream(send: Writer) returns (ok: bool)
    requires send.output == [] && !send.finished
    modifies send
    ensures send.output <= TOO_MANY_STREAMS.Bytes() && send.finished
    ensures ok ==> send.output == TOO_MANY_STREAMS.Bytes()
    ensures old(send.Reliable()) ==> ok
  {
    assert [] + TOO_MANY_STREAMS.Bytes() == TOO_MANY_STREAMS.Bytes();
    ok := WritePlainResponse(send, TOO_MANY_STREAMS.status, TOO_MANY_STREAMS.reason, TOO_MANY_STREAMS.body);
    send.Finish();
  }

  /** A stream from its arrival on: refused, or handled. */
  method ServeOpenAiStream(g: Grammar, base: Url, reader: Reader, send: Writer, events: Events) returns (ok: bool)
    requires reader.Valid() && send.output == [] && !send.finished
    modifies reader`buffer, reader`fetched, send
    ensures var reply := StreamReply(base, ServerOutcome(g, old(reader.Rest()), reader.end), events);
            && send.output <= reply.Bytes()
            && (ok ==> send.output == reply.Bytes() && (reply.Forwarded? ==> reply.response.end.Ended?))
    ensures send.finished <==> ok || events.noPermit
    ensures var reply := StreamReply(base, ServerOutcome(g, old(reader.Rest()), reader.end), events);
            old(send.Reliable()) ==>
              send.output == reply.Bytes() && ok == (reply.Forwarded? ==> reply.response.end.Ended?)
  {
    if events.noPermit {
      ok := RefuseStream(send);
    } else {
      ok := HandleOpenAiStream(g, base, reader, send, events);
    }
  }

  // ----------------------------------------------------------- end to end, both sides

  /** Without line ends in the reason, and with a status that may have a body. */
  ghost predicate IsPlain(reply: OwnReply) {
    NoLineEnds(reply.reason) && 200 <= reply.status <= 599 && reply.status != 204 && reply.status != 304
  }

  lemma OwnRepliesArePlain()
    ensures IsPlain(TOO_MANY_STREAMS) && IsPlain(REQUEST_TIMEOUT) && IsPlain(BAD_URL) && IsPlain(HEALTHY)
    ensures IsPlain(REQUEST_FAILED) && IsPlain(PROVIDER_TIMEOUT) && IsPlain(RESPONSE_FAILED)
  {
    OpenAiClientSession.CleanText("Service Unavailable");
    OpenAiClientSession.CleanText("Request Timeout");
    OpenAiClientSession.CleanText("Bad Request");
    OpenAiClientSession.CleanText("OK");
    OpenAiClientSession.CleanText("Bad Gateway");
    OpenAiClientSession.CleanText("Gateway Timeout");
  }

  lemma RequestReplyKinds(base: Url, request: Request, events: Events)
    requires ReplyToRequest(base, request, events).Own?
    ensures var reply := ReplyToRequest(base, request, events).reply;
            || reply == HEALTHY || reply == BAD_URL || reply == REQUEST_FAILED
            || reply == PROVIDER_TIMEOUT || reply == RESPONSE_FAILED
  {
  }

  lemma OwnReplyIsPlain(base: Url, request: Result<Request, HttpRequestError>, events: Events)
    requires StreamReply(base, request, events).Own?
    ensures IsPlain(StreamReply(base, request, events).reply)
  {
    OwnRepliesArePlain();
    if events.noPermit || events.requestTimesOut {
    } else if request.Err? {
      OpenAiClientSession.ErrorReasonIsClean(request.error);
    } else {
      RequestReplyKinds(base, request.value, events);
    }
  }

  /** Where a reply ends for a recipient that asked with that method. */
  function ReplyEnd(requestMethod: seq<byte>, reply: Reply): Option<seq<byte>> {
    match reply
    case Own(own) => Some(PlainEnd(requestMethod, own.status, own.reason, own.body))
    case Forwarded(response) => FirstEnd(requestMethod, response)
  }

  /** The body it then has: none if it may not have one, else all there is before an empty chunk. */
  function ReplyBody(requestMethod: seq<byte>, reply: Reply): seq<byte> {
    match reply
    case Own(own) => if MayHaveBody(requestMethod, own.status) then own.body else []
    case Forwarded(response) =>
      if MayHaveBody(requestMethod, response.status) then Flatten(BeforeEmpty(response.chunks)) else []
  }

  /** It may have a body, and no chunk of it is empty. */
  ghost predicate EndsOnce(requestMethod: seq<byte>, reply: Reply) {
    match reply
    case Own(own) => MayHaveBody(requestMethod, own.status)
    case Forwarded(response) => MayHaveBody(requestMethod, response.status) && AllNonEmpty(response.chunks)
  }

  /**
   From the provider to the application: a prefix of a stream's reply decodes as complete
   exactly if it holds the reply's end, with the body up to there. For a reply that may have
   a body and has no empty chunk that is the whole reply, the provider's body having ended.
   */
  lemma CompleteMeansWhole(base: Url, request: Result<Request, HttpRequestError>, events: Events,
                           requestMethod: seq<byte>, received: seq<byte>)
    requires received <= StreamReply(base, request, events).Bytes()
    requires var reply := StreamReply(base, request, events); reply.Forwarded? ==> WellFormedResponse(reply.response)
    ensures var reply := StreamReply(base, request, events);
            var end := ReplyEnd(requestMethod, reply);
            && (DecodeMessage(requestMethod, received).Whole? <==> end.Some? && end.value <= received)
            && (DecodeMessage(requestMethod, received).Whole? ==>
                  DecodeMessage(requestMethod, received).body == ReplyBody(requestMethod, reply))
    ensures var reply := StreamReply(base, request, events);
            EndsOnce(requestMethod, reply) ==>
              (DecodeMessage(requestMethod, received).Whole? <==>
               received == reply.Bytes() && (reply.Forwarded? ==> reply.response.end.Ended?))
  {
    match StreamReply(base, request, events) {
      case Own(own) =>
        OwnReplyIsPlain(base, request, events);
        PlainRoundTrip(requestMethod, own.status, own.reason, own.body, received);
        PlainLeftOver(requestMethod, own.status, own.reason, own.body);
      case Forwarded(response) =>
        ReceivedMeaning(requestMethod, response, received);
        if EndsOnce(requestMethod, Forwarded(response)) {
          TruncationShowsIff(requestMethod, response);
          TruncationDetected(requestMethod, response, received);
        }
    }
  }
}

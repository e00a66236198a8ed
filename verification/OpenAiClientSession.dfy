/**
 One local OpenAI connection: read the request, open a tunnel stream, send the request,
 copy the response back. Failures of each step are parameters, so the contracts hold over
 every sequence of events.
 */
module OpenAiClientSession {
  import opened Bytes
  import opened Streams
  import opened HttpHead
  import opened HttpHeaders
  import opened HttpRequest
  import opened HttpResponse
  import opened HttpDecoding

  /** A response the client makes up itself. */
  datatype OwnReply = OwnReply(status: nat, reason: seq<byte>, body: seq<byte>) {
    function Bytes(): seq<byte> {
      PlainResponse(status, reason, body)
    }
  }

  function ErrorReply(error: HttpRequestError): OwnReply {
    match error
    case BadRequest => OwnReply(400, Ascii("Bad Request"), Ascii("bad request"))
    case HeadersTooLarge => OwnReply(431, Ascii("Request Header Fields Too Large"), Ascii("request headers too large"))
    case PayloadTooLarge => OwnReply(413, Ascii("Payload Too Large"), Ascii("payload too large"))
    case UnsupportedChunked =>
      OwnReply(501, Ascii("Not Implemented"), Ascii("chunked request bodies are not supported"))
  }

  const REQUEST_TIMEOUT: OwnReply := OwnReply(408, Ascii("Request Timeout"), Ascii("request timeout"))
  const GATEWAY_TIMEOUT: OwnReply := OwnReply(504, Ascii("Gateway Timeout"), Ascii("gateway timeout"))

  lemma ErrorReplyMeaning(error: HttpRequestError)
    ensures ErrorReply(error).status ==
            match error
            case BadRequest => 400
            case HeadersTooLarge => 431
            case PayloadTooLarge => 413
            case UnsupportedChunked => 501
  {
  }

  /** The phrases that section 6 of RFC 7231 and RFC 6585 give to the codes used here. */
  function ReasonPhrase(status: nat): string {
    match status
    case 200 => "OK"
    case 400 => "Bad Request"
    case 408 => "Request Timeout"
    case 413 => "Payload Too Large"
    case 431 => "Request Header Fields Too Large"
    case 501 => "Not Implemented"
    case 502 => "Bad Gateway"
    case 503 => "Service Unavailable"
    case 504 => "Gateway Timeout"
    case _ => ""
  }

  predicate NamesItsStatus(reply: OwnReply) {
    reply.reason == Ascii(ReasonPhrase(reply.status)) && reply.reason != [] && reply.body != []
  }

  /** What one read from the tunnel reports. */
  datatype ReadEvent = Data(bytes: seq<byte>) | End | ReadFailed | TimedOut

  /** The events around the session's own steps. */
  datatype Events = Events(
    localReadTimesOut: bool,
    streamOpens: bool,
    sendTimesOut: bool,
    incoming: seq<ReadEvent>)

  // --------------------------------------------------------- what may be written where

  datatype Reply = Own(reply: OwnReply) | Tunnel(bytes: seq<byte>) {
    function Bytes(): seq<byte> {
      match this
      case Own(reply) => reply.Bytes()
      case Tunnel(bytes) => bytes
    }
  }

  /** The tunnel's bytes up to the first event that is not data. */
  function TunnelBytes(incoming: seq<ReadEvent>): seq<byte>
  {
    if incoming == [] || !incoming[0].Data? || incoming[0].bytes == [] then []
    else incoming[0].bytes + TunnelBytes(incoming[1..])
  }

  /** The copy ends by the end of the stream or a timeout, not by a failing read. */
  predicate EndsInOrder(incoming: seq<ReadEvent>)
  {
    if incoming == [] || incoming[0].ReadFailed? then false
    else if !incoming[0].Data? || incoming[0].bytes == [] then true
    else EndsInOrder(incoming[1..])
  }

  /** A 504 if the very first read times out; otherwise the tunnel's bytes and nothing else. */
  function CopyReply(incoming: seq<ReadEvent>): Reply {
    if incoming != [] && incoming[0].TimedOut? then Own(GATEWAY_TIMEOUT) else Tunnel(TunnelBytes(incoming))
  }

  /** The reads of a tunnel stream that arrives in those pieces and then stops so. */
  function Reads(pieces: seq<seq<byte>>, stop: ReadEvent): seq<ReadEvent> {
    seq(|pieces|, i requires 0 <= i < |pieces| => Data(pieces[i])) + [stop]
  }

  /**
   However the tunnel's bytes are cut into reads, all of them are copied, in order, up to where
   the stream ends, fails or idles too long.
   */
  lemma {:induction false} AllPiecesAreCopied(pieces: seq<seq<byte>>, stop: ReadEvent)
    requires AllNonEmpty(pieces) && (stop.Data? ==> stop.bytes == [])
    ensures TunnelBytes(Reads(pieces, stop)) == Flatten(pieces)
    ensures EndsInOrder(Reads(pieces, stop)) <==> !stop.ReadFailed?
    ensures CopyReply(Reads(pieces, stop)) ==
            if pieces == [] && stop.TimedOut? then Own(GATEWAY_TIMEOUT) else Tunnel(Flatten(pieces))
  {
    if pieces != [] {
      AllPiecesAreCopied(pieces[1..], stop);
      assert Reads(pieces, stop)[1..] == Reads(pieces[1..], stop);
    }
  }

  /** The one reply of a session, given the raw request read and whether the send got through. */
  function SessionReply(raw: Result<seq<byte>, HttpRequestError>, sent: bool, events: Events): Reply
  {
    if events.localReadTimesOut then Own(REQUEST_TIMEOUT)
    else if raw.Err? then Own(ErrorReply(raw.error))
    else if !events.streamOpens then Own(GATEWAY_TIMEOUT)
    else if !sent then if events.sendTimesOut then Own(GATEWAY_TIMEOUT) else Tunnel([])
    else CopyReply(events.incoming)
  }

  /** Which reply each course of events leads to. */
  lemma SessionReplyMeaning(raw: Result<seq<byte>, HttpRequestError>, sent: bool, events: Events)
    ensures var reply := SessionReply(raw, sent, events);
            if events.localReadTimesOut then reply.Own? && reply.reply.status == 408
            else if raw.Err? then reply == Own(ErrorReply(raw.error))
            else if !events.streamOpens || (!sent && events.sendTimesOut) then reply.Own? && reply.reply.status == 504
            else if !sent then reply.Bytes() == []
            else if events.incoming != [] && events.incoming[0].TimedOut? then reply.Own? && reply.reply.status == 504
            else reply.Bytes() == TunnelBytes(events.incoming)
  {
  }

  lemma RepliesNameTheirStatus(raw: Result<seq<byte>, HttpRequestError>, sent: bool, events: Events)
    requires SessionReply(raw, sent, events).Own?
    ensures NamesItsStatus(SessionReply(raw, sent, events).reply)
  {
    assert |Ascii("Gateway Timeout")| == 15 && |Ascii("Request Timeout")| == 15;
  }

  // ------------------------------------------------------------------------ the steps

  method WriteErrorAndShutdown(local: Writer, reply: OwnReply) returns (ok: bool)
    requires local.output == []
    modifies local
    ensures local.output <= reply.Bytes()
    ensures ok ==> local.output == reply.Bytes() && local.finished
    ensures local.finished ==> ok || old(local.finished)
    ensures old(local.Reliable()) ==> ok
  {
    assert [] + reply.Bytes() == reply.Bytes();
    ok := WritePlainResponse(local, reply.status, reply.reason, reply.body);
    if ok {
      local.Finish();
    }
  }

  datatype CopyState = WaitingForFirstByte | Streaming

  /** Copies until the tunnel ends, fails or idles too long; only an idle start is answered. */
  method CopyTunnelResponseWithIdleTimeout(incoming: seq<ReadEvent>, local: Writer) returns (ok: bool)
    modifies local`output, local`outcomes
    ensures old(local.output) <= local.output <= old(local.output) + CopyReply(incoming).Bytes()
    ensures ok ==> local.output == old(local.output) + CopyReply(incoming).Bytes()
    ensures old(local.Reliable()) ==>
              local.output == old(local.output) + CopyReply(incoming).Bytes() && ok == EndsInOrder(incoming)
  {
    var state := WaitingForFirstByte;
    for i := 0 to |incoming|
      invariant state.WaitingForFirstByte? <==> i == 0
      invariant old(local.Reliable()) ==> local.Reliable() && EndsInOrder(incoming) == EndsInOrder(incoming[i..])
      invariant i > 0 ==> !incoming[0].TimedOut?
      invariant old(local.output) <= local.output
      invariant old(local.output) + TunnelBytes(incoming) == local.output + TunnelBytes(incoming[i..])
    {
      assert incoming[i..][1..] == incoming[i + 1..];
      match incoming[i] {
        case TimedOut =>
          if state.WaitingForFirstByte? {
            assert local.output == old(local.output);
            ok := WritePlainResponse(local, GATEWAY_TIMEOUT.status, GATEWAY_TIMEOUT.reason, GATEWAY_TIMEOUT.body);
            return;
          }
          assert local.output + [] == local.output;
          return true;
        case End =>
          assert local.output + [] == local.output;
          return true;
        case ReadFailed =>
          return false;
        case Data(bytes) =>
          if bytes == [] {
            assert local.output + [] == local.output;
            return true;
          }
          ok := Emit(local, bytes, TunnelBytes(incoming[i + 1..]));
          if !ok { return; }
          state := Streaming;
      }
    }
    return false;
  }

  /** The whole request, or a prefix of it if the send fails or times out. */
  method SendRequestToTunnel(send: Writer, raw: seq<byte>) returns (sent: bool)
    modifies send
    ensures old(send.output) <= send.output <= old(send.output) + raw
    ensures sent ==> send.output == old(send.output) + raw
    ensures send.finished <==> sent || old(send.finished)
    ensures old(send.Reliable()) ==> sent
  {
    sent := send.WriteAll(raw);
    if sent {
      send.Finish();
    }
  }

  /**
   Over every sequence of events the local socket holds a prefix of exactly one reply: one
   response made up here, or the tunnel's own bytes. `raw` and `sent` report what was read
   and whether the tunnel took it all.
   */
  method HandleOpenAiClientStream(g: Grammar, reader: Reader, local: Writer, send: Writer, events: Events)
    returns (raw: Result<seq<byte>, HttpRequestError>, sent: bool, ok: bool)
    requires reader.Valid() && reader.Settled() && reader.Rest() == Flatten(reader.pieces)
    requires local.output == [] && send.output == [] && !send.finished && local != send
    modifies reader`buffer, reader`fetched, local, send
    ensures !events.localReadTimesOut ==> raw == LocalRequest(g, reader.pieces, reader.end)
    ensures local.output <= SessionReply(raw, sent, events).Bytes()
    ensures ok ==> local.output == SessionReply(raw, sent, events).Bytes() && local.finished
    ensures raw.Ok? ==> send.output <= raw.value
    ensures !events.localReadTimesOut && raw.Err? ==> send.output == []
    ensures sent ==> raw.Ok? && send.output == raw.value
    ensures send.finished <==>
            sent || (!events.localReadTimesOut && raw.Ok? && events.streamOpens && events.sendTimesOut)
    ensures old(local.Reliable()) ==> local.output == SessionReply(raw, sent, events).Bytes()
    ensures old(send.Reliable()) && !events.localReadTimesOut && raw.Ok? && events.streamOpens ==> sent
  {
    sent := false;
    if events.localReadTimesOut {
      raw := Err(BadRequest);
      ok := WriteErrorAndShutdown(local, REQUEST_TIMEOUT);
      return;
    }
    raw := ReadOneLocalHttpRequest(g, reader);
    if raw.Err? {
      ok := WriteErrorAndShutdown(local, ErrorReply(raw.error));
      return;
    }
    if !events.streamOpens {
      ok := WriteErrorAndShutdown(local, GATEWAY_TIMEOUT);
      return;
    }
    sent := SendRequestToTunnel(send, raw.value);
    assert [] + raw.value == raw.value;
    if !sent {
      if !events.sendTimesOut {
        return raw, false, false;
      }
      send.Finish();
      ok := WriteErrorAndShutdown(local, GATEWAY_TIMEOUT);
      return;
    }
    ok := CopyTunnelResponseWithIdleTimeout(events.incoming, local);
    assert [] + CopyReply(events.incoming).Bytes() == CopyReply(events.incoming).Bytes();
    if ok {
      local.Finish();
    }
  }

  lemma CleanText(text: string)
    requires forall i :: 0 <= i < |text| ==> ' ' <= text[i] <= '~'
    ensures NoLineEnds(Ascii(text))
  {
  }

  lemma ErrorReasonIsClean(error: HttpRequestError)
    ensures NoLineEnds(ErrorReply(error).reason)
  {
    match error
    case BadRequest => CleanText("Bad Request");
    case HeadersTooLarge => CleanText("Request Header Fields Too Large");
    case PayloadTooLarge => CleanText("Payload Too Large");
    case UnsupportedChunked => CleanText("Not Implemented");
  }

  lemma CopyReplyIsClean(incoming: seq<ReadEvent>)
    requires CopyReply(incoming).Own?
    ensures NoLineEnds(CopyReply(incoming).reply.reason) && CopyReply(incoming).reply.status == 504
  {
    CleanText("Gateway Timeout");
  }

  /** Every reply made up here has one of five statuses and decodes to its own body; a HEAD has none. */
  lemma OwnRepliesDecode(g: Grammar, pieces: seq<seq<byte>>, end: StreamEnd, raw: Result<seq<byte>, HttpRequestError>,
                         sent: bool, events: Events, requestMethod: seq<byte>)
    requires SessionReply(raw, sent, events).Own? && (events.localReadTimesOut || raw == LocalRequest(g, pieces, end))
    ensures var reply := SessionReply(raw, sent, events).reply;
            var head := PlainHeadLines(reply.status, reply.reason, reply.body);
            && reply.status in {400, 408, 413, 431, 504} && NoLineEnds(reply.reason)
            && DecodeMessage(requestMethod, reply.Bytes()) ==
               if requestMethod == Ascii("HEAD") then Whole(head, [], reply.body) else Whole(head, reply.body, [])
  {
    var reply := SessionReply(raw, sent, events).reply;
    if raw.Err? && !events.localReadTimesOut {
      LocalErrors(g, pieces, end);
      ErrorReasonIsClean(raw.error);
    }
    CleanText("Request Timeout");
    CleanText("Gateway Timeout");
    PlainRoundTrip(requestMethod, reply.status, reply.reason, reply.body, reply.Bytes());
    PlainLeftOver(requestMethod, reply.status, reply.reason, reply.body);
  }
}

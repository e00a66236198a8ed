/** Both ends of an OpenAI stream together: what reaches the provider, and what reaches the application. */
module OpenAiEndToEnd {
  import opened Bytes
  import opened Streams
  import opened HttpHead
  import opened HttpHeaders
  import opened HttpRequest
  import opened HttpDecoding
  import opened Rfc3986
  import Client = OpenAiClientSession
  import Server = OpenAiServerSession

  /**
   Nothing is forwarded but the application's whole request. The client reads a request of
   `n` bytes; whatever prefix of it the server is left with, and however its stream seems to
   end, a forwarded reply answers all of it, parsed as the client parsed it.
   */
  lemma OnlyWholeRequestsAreForwarded(g: Grammar, s: seq<byte>, end: StreamEnd, n: nat, arrived: nat,
                                      newEnd: StreamEnd, base: Url, events: Server.Events)
    requires LocalOutcome(g, s, end) == Ok(n) && arrived <= n
    requires Server.StreamReply(base, ServerOutcome(g, s[..arrived], newEnd), events).Forwarded?
    ensures var framed := FrameOutcome(g, s, end).value;
            && arrived == n && !framed.parsed.hasChunkedBody
            && ServerOutcome(g, s[..arrived], newEnd) ==
               Ok(Request(framed.parsed.method_, framed.parsed.target, framed.parsed.headers, s[framed.headLength..n]))
  {
    if arrived < n {
      CutRequestIsRefused(g, s, end, n, arrived, newEnd);
    }
    TwoEndsAgree(g, s, end, n, newEnd);
    assert s[..n][FrameOutcome(g, s, end).value.headLength..] == s[FrameOutcome(g, s, end).value.headLength..n];
  }

  /**
   What the application holds after a session, the server having written a prefix of its
   reply, the tunnel having delivered a prefix of that, and the copy having stopped anywhere:
   it is complete exactly if it is the client's own time-out response up to its end, or holds
   the end of the server's reply.
   */
  lemma CopiedMeaning(base: Url, request: Result<Request, HttpRequestError>, events: Server.Events,
                      written: seq<byte>, incoming: seq<Client.ReadEvent>,
                      requestMethod: seq<byte>, received: seq<byte>)
    requires var reply := Server.StreamReply(base, request, events);
             && written <= reply.Bytes() && (reply.Forwarded? ==> WellFormedResponse(reply.response))
    requires Client.TunnelBytes(incoming) <= written && received <= Client.CopyReply(incoming).Bytes()
    ensures DecodeMessage(requestMethod, received).Whole? <==>
            match Client.CopyReply(incoming)
            case Own(own) => PlainEnd(requestMethod, own.status, own.reason, own.body) <= received
            case Tunnel(_) =>
              var end := Server.ReplyEnd(requestMethod, Server.StreamReply(base, request, events));
              end.Some? && end.value <= received
  {
    match Client.CopyReply(incoming) {
      case Own(own) =>
        Client.CopyReplyIsClean(incoming);
        PlainRoundTrip(requestMethod, own.status, own.reason, own.body, received);
      case Tunnel(_) =>
        Server.CompleteMeansWhole(base, request, events, requestMethod, received);
    }
  }

  /**
   A copy that the idle timeout, an error or a lost stream cut off after its first byte never
   looks complete, as long as the reply may have a body and has no empty chunk: what the
   application takes for a complete response from the tunnel is all the server meant to write.
   */
  lemma IdleCutIsDetected(base: Url, request: Result<Request, HttpRequestError>, events: Server.Events,
                          written: seq<byte>, incoming: seq<Client.ReadEvent>,
                          requestMethod: seq<byte>, received: seq<byte>)
    requires var reply := Server.StreamReply(base, request, events);
             && written <= reply.Bytes() && (reply.Forwarded? ==> WellFormedResponse(reply.response))
             && Server.EndsOnce(requestMethod, reply)
    requires Client.TunnelBytes(incoming) <= written && received <= Client.CopyReply(incoming).Bytes()
    requires Client.CopyReply(incoming).Tunnel? && DecodeMessage(requestMethod, received).Whole?
    ensures var reply := Server.StreamReply(base, request, events);
            && received == Client.TunnelBytes(incoming) == written == reply.Bytes()
            && (reply.Forwarded? ==> reply.response.end.Ended?)
            && DecodeMessage(requestMethod, received).body ==
               (match reply case Own(own) => own.body case Forwarded(response) => Flatten(response.chunks))
  {
    Server.CompleteMeansWhole(base, request, events, requestMethod, received);
  }

  /** A reply written whole, delivered in whatever pieces and then ended, reaches the application whole. */
  lemma WholeReplyArrives(base: Url, request: Result<Request, HttpRequestError>, events: Server.Events,
                          pieces: seq<seq<byte>>, requestMethod: seq<byte>)
    requires var reply := Server.StreamReply(base, request, events);
             && AllNonEmpty(pieces) && Flatten(pieces) == reply.Bytes()
             && (reply.Forwarded? ==> WellFormedResponse(reply.response) && reply.response.end.Ended?)
             && Server.EndsOnce(requestMethod, reply)
    ensures var reply := Server.StreamReply(base, request, events);
            var received := Client.CopyReply(Client.Reads(pieces, Client.End)).Bytes();
            && received == reply.Bytes() && DecodeMessage(requestMethod, received).Whole?
            && DecodeMessage(requestMethod, received).body ==
               (match reply case Own(own) => own.body case Forwarded(response) => Flatten(response.chunks))
  {
    Client.AllPiecesAreCopied(pieces, Client.End);
    var received := Client.CopyReply(Client.Reads(pieces, Client.End)).Bytes();
    Server.CompleteMeansWhole(base, request, events, requestMethod, received);
    IdleCutIsDetected(base, request, events, received, Client.Reads(pieces, Client.End), requestMethod, received);
  }
}

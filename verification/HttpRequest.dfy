/**
 The two readers of one request: the local end, which keeps the raw bytes, and the
 server end, which parses them again after they crossed the tunnel.
 */
module HttpRequest {
  import opened Bytes
  import opened Streams
  import opened HttpHead
  import opened HttpHeaders

  datatype Request = Request(method_: seq<byte>, target: seq<byte>, headers: seq<Header>, body: seq<byte>)

  /** What is known of a stream once its head is read and parsed. */
  datatype Framed = Framed(headLength: nat, parsed: ParsedHead) {
    function BodyLength(): nat {
      if parsed.contentLength.Some? then parsed.contentLength.value else 0
    }
  }

  function FrameOutcome(g: Grammar, s: seq<byte>, end: StreamEnd): (r: Result<Framed, HttpRequestError>)
    ensures r.Ok? ==> r.value.headLength <= |s|
  {
    match HeadOutcome(s, end)
    case Err(e) => Err(e)
    case Ok(n) =>
      match ParseOutcome(g, s[..n])
      case Err(e) => Err(e)
      case Ok(parsed) => Ok(Framed(n, parsed))
  }

  /** What the server end makes of a stream. */
  function ServerOutcome(g: Grammar, s: seq<byte>, end: StreamEnd): Result<Request, HttpRequestError>
  {
    match FrameOutcome(g, s, end)
    case Err(e) => Err(e)
    case Ok(framed) =>
      var bodyEnd := framed.headLength + framed.BodyLength();
      if framed.parsed.hasChunkedBody then Err(UnsupportedChunked)
      else if bodyEnd > |s| then Err(BadRequest)
      else Ok(Request(framed.parsed.method_, framed.parsed.target, framed.parsed.headers,
                      s[framed.headLength..bodyEnd]))
  }

  /** How many bytes of a stream the local end takes as its one request, pipelining aside. */
  function LocalOutcome(g: Grammar, s: seq<byte>, end: StreamEnd): (r: Result<nat, HttpRequestError>)
    ensures r.Ok? ==> r.value <= |s|
  {
    match FrameOutcome(g, s, end)
    case Err(e) => Err(e)
    case Ok(framed) =>
      var bodyEnd := framed.headLength + framed.BodyLength();
      if framed.parsed.hasChunkedBody then Ok(framed.headLength)
      else if bodyEnd > |s| then Err(BadRequest)
      else Ok(bodyEnd)
  }

  predicate IsChunked(g: Grammar, s: seq<byte>, end: StreamEnd) {
    FrameOutcome(g, s, end).Ok? && FrameOutcome(g, s, end).value.parsed.hasChunkedBody
  }

  lemma FrameOfHead(g: Grammar, s: seq<byte>, end: StreamEnd, head: seq<byte>, rest: seq<byte>)
    requires s == head + rest && HeadOutcome(s, end) == Ok(|head|)
    ensures FrameOutcome(g, s, end) ==
            match ParseOutcome(g, head)
            case Err(e) => Err(e)
            case Ok(parsed) => Ok(Framed(|head|, parsed))
  {
    Regroup(head, rest, []);
  }

  /** The declared body; nothing is read for an empty one. */
  method ReadBody(reader: Reader, contentLength: nat) returns (body: Option<seq<byte>>)
    requires reader.Valid() && reader.Settled()
    modifies reader`buffer, reader`fetched
    ensures reader.Valid() && (body.Some? ==> reader.Settled())
    ensures body.Some? <==> contentLength <= |old(reader.Rest())|
    ensures body.Some? ==> |body.value| == contentLength && old(reader.Rest()) == body.value + reader.Rest()
  {
    if contentLength == 0 {
      assert [] + reader.Rest() == reader.Rest();
      return Some([]);
    }
    body := reader.ReadExact(contentLength);
  }

  method ReadHttpRequest(g: Grammar, reader: Reader) returns (request: Result<Request, HttpRequestError>)
    requires reader.Valid()
    modifies reader`buffer, reader`fetched
    ensures reader.Valid()
    ensures request == ServerOutcome(g, old(reader.Rest()), reader.end)
  {
    ghost var s := reader.Rest();
    var head := ReadHttpHead(reader);
    if head.Err? {
      return Err(head.error);
    }
    FrameOfHead(g, s, reader.end, head.value, reader.Rest());
    var parsed := ParseHttpHead(g, head.value);
    if parsed.Err? {
      return Err(parsed.error);
    }
    if parsed.value.hasChunkedBody {
      return Err(UnsupportedChunked);
    }
    var contentLength := if parsed.value.contentLength.Some? then parsed.value.contentLength.value else 0;
    var body := ReadBody(reader, contentLength);
    if body.None? {
      return Err(BadRequest);
    }
    ReadInTurn(s, head.value, body.value, reader.Rest());
    return Ok(Request(parsed.value.method_, parsed.value.target, parsed.value.headers, body.value));
  }

  /** The buffer after `read` bytes is empty: nothing already fetched follows the request. */
  ghost predicate NothingBufferedAfter(pieces: seq<seq<byte>>, read: nat) {
    exists k :: 0 <= k <= |pieces| && Boundary(pieces, k) == read
  }

  /**
   What the local end returns for a stream cut into those pieces: the raw request exactly
   when the stream holds one and, unless its head announces chunks, the request ends where
   a piece ends.
   */
  ghost function LocalRequest(g: Grammar, pieces: seq<seq<byte>>, end: StreamEnd): Result<seq<byte>, HttpRequestError>
  {
    var s := Flatten(pieces);
    match LocalOutcome(g, s, end)
    case Err(e) => Err(e)
    case Ok(n) => if IsChunked(g, s, end) || NothingBufferedAfter(pieces, n) then Ok(s[..n]) else Err(BadRequest)
  }

  lemma LocalOfRead(g: Grammar, s: seq<byte>, end: StreamEnd, framed: Framed, bytes: seq<byte>, rest: seq<byte>)
    requires s == bytes + rest && FrameOutcome(g, s, end) == Ok(framed)
    requires |bytes| == framed.headLength + if framed.parsed.hasChunkedBody then 0 else framed.BodyLength()
    ensures LocalOutcome(g, s, end) == Ok(|bytes|) && s[..|bytes|] == bytes
    ensures IsChunked(g, s, end) == framed.parsed.hasChunkedBody
  {
  }

  method ReadOneLocalHttpRequest(g: Grammar, reader: Reader) returns (raw: Result<seq<byte>, HttpRequestError>)
    requires reader.Valid() && reader.Settled() && reader.Rest() == Flatten(reader.pieces)
    modifies reader`buffer, reader`fetched
    ensures reader.Valid()
    ensures raw == LocalRequest(g, reader.pieces, reader.end)
  {
    ghost var s := reader.Rest();
    var head := ReadHttpHead(reader);
    if head.Err? {
      return Err(head.error);
    }
    FrameOfHead(g, s, reader.end, head.value, reader.Rest());
    var parsed := ParseHttpHead(g, head.value);
    if parsed.Err? {
      return Err(parsed.error);
    }
    var bytes := head.value;
    if !parsed.value.hasChunkedBody {
      var contentLength := if parsed.value.contentLength.Some? then parsed.value.contentLength.value else 0;
      var body := ReadBody(reader, contentLength);
      if body.None? {
        return Err(BadRequest);
      }
      Regroup(bytes, body.value, reader.Rest());
      bytes := bytes + body.value;
      LocalOfRead(g, s, reader.end, Framed(|head.value|, parsed.value), bytes, reader.Rest());
      reader.BufferEmptyIffBoundary(|bytes|);
      if reader.buffer != [] {
        return Err(BadRequest);
      }
      return Ok(bytes);
    }
    LocalOfRead(g, s, reader.end, Framed(|head.value|, parsed.value), bytes, reader.Rest());
    return Ok(bytes);
  }

  /** What is a head of a prefix that holds all of it is a head of the whole, and the other way round. */
  lemma HeadOfPrefix(s: seq<byte>, kept: nat, f: nat, n: nat)
    requires n <= kept <= |s|
    ensures IsHeadWithFirstLine(s[..kept], f, n) <==> IsHeadWithFirstLine(s, f, n)
  {
    if 0 < f < n {
      assert s[..kept][..f - 1] == s[..f - 1];
      BlockOfPrefix(s[f..], kept - f, n - f);
      assert s[..kept][f..] == s[f..][..kept - f];
    }
  }

  lemma BlockOfPrefix(s: seq<byte>, kept: nat, n: nat)
    requires n <= kept <= |s|
    ensures IsHeaderBlock(s[..kept], 0, n) <==> IsHeaderBlock(s, 0, n)
  {
    assert forall m: nat :: m <= n ==> BlankLineEndsAt(s[..kept], m) == BlankLineEndsAt(s, m);
  }

  /** Bytes after a head, or their absence, do not change what the head is. */
  lemma HeadIgnoresWhatFollows(s: seq<byte>, end: StreamEnd, n: nat, kept: nat, newEnd: StreamEnd)
    requires HeadOutcome(s, end) == Ok(n) && n <= kept <= |s|
    ensures HeadOutcome(s[..kept], newEnd) == Ok(n)
  {
    HeadMeaning(s, end, n);
    HeadMeaning(s[..kept], newEnd, n);
    var f: nat :| IsHeadWithFirstLine(s, f, n);
    HeadOfPrefix(s, kept, f, n);
  }

  /** A stream cut inside its head has no head. */
  lemma CutHeadIsNone(s: seq<byte>, end: StreamEnd, n: nat, cut: nat, newEnd: StreamEnd)
    requires HeadOutcome(s, end) == Ok(n) && cut < n
    ensures HeadOutcome(s[..cut], newEnd).Err?
  {
    if HeadOutcome(s[..cut], newEnd).Ok? {
      var m := HeadOutcome(s[..cut], newEnd).value;
      HeadMeaning(s[..cut], newEnd, m);
      var f: nat :| IsHeadWithFirstLine(s[..cut], f, m);
      HeadOfPrefix(s, cut, f, m);
      HeadMeaning(s, end, m);
    }
  }

  lemma FrameOfPart(g: Grammar, s: seq<byte>, end: StreamEnd, kept: nat, newEnd: StreamEnd)
    requires FrameOutcome(g, s, end).Ok? && FrameOutcome(g, s, end).value.headLength <= kept <= |s|
    ensures FrameOutcome(g, s[..kept], newEnd) == FrameOutcome(g, s, end)
  {
    var h := FrameOutcome(g, s, end).value.headLength;
    HeadIgnoresWhatFollows(s, end, h, kept, newEnd);
    assert s[..kept][..h] == s[..h];
  }

  lemma ServerOfRaw(g: Grammar, raw: seq<byte>, end: StreamEnd, framed: Framed)
    requires FrameOutcome(g, raw, end) == Ok(framed)
    requires |raw| == framed.headLength + if framed.parsed.hasChunkedBody then 0 else framed.BodyLength()
    ensures ServerOutcome(g, raw, end) ==
            if framed.parsed.hasChunkedBody then Err(UnsupportedChunked)
            else Ok(Request(framed.parsed.method_, framed.parsed.target, framed.parsed.headers,
                            raw[framed.headLength..]))
  {
    assert raw[framed.headLength..|raw|] == raw[framed.headLength..];
  }

  /**
   The two ends agree on one request. What the local end takes is exactly the head and the
   declared body; the server end, given those bytes alone and however its stream ends, finds
   the same head and that body, and refuses exactly when the head announces chunks.
   */
  lemma TwoEndsAgree(g: Grammar, s: seq<byte>, end: StreamEnd, n: nat, newEnd: StreamEnd)
    requires LocalOutcome(g, s, end) == Ok(n)
    ensures var raw, framed := s[..n], FrameOutcome(g, s, end).value;
            && FrameOutcome(g, raw, newEnd) == Ok(framed)
            && n == framed.headLength + (if framed.parsed.hasChunkedBody then 0 else framed.BodyLength())
            && ServerOutcome(g, raw, newEnd) ==
               if framed.parsed.hasChunkedBody then Err(UnsupportedChunked)
               else Ok(Request(framed.parsed.method_, framed.parsed.target, framed.parsed.headers,
                               raw[framed.headLength..]))
  {
    FrameOfPart(g, s, end, n, newEnd);
    ServerOfRaw(g, s[..n], newEnd, FrameOutcome(g, s, end).value);
  }

  /** The server end never waits for more than the local end sent: its verdict ignores what follows. */
  lemma ServerIgnoresWhatFollows(g: Grammar, s: seq<byte>, end: StreamEnd, n: nat)
    requires LocalOutcome(g, s, end) == Ok(n)
    ensures ServerOutcome(g, s, end) == ServerOutcome(g, s[..n], Eof)
  {
    TwoEndsAgree(g, s, end, n, Eof);
  }

  /**
   A request that reaches the server cut short is refused, however its stream seems to end:
   so a client that ends the stream after a failed send never has half a request forwarded.
   */
  lemma CutRequestIsRefused(g: Grammar, s: seq<byte>, end: StreamEnd, n: nat, cut: nat, newEnd: StreamEnd)
    requires LocalOutcome(g, s, end) == Ok(n) && cut < n
    ensures ServerOutcome(g, s[..cut], newEnd).Err?
  {
    var h := FrameOutcome(g, s, end).value.headLength;
    if cut < h {
      CutHeadIsNone(s, end, h, cut, newEnd);
    } else {
      FrameOfPart(g, s, end, cut, newEnd);
    }
  }

  /** The local end refuses for three reasons only: chunks it leaves to the server to refuse. */
  lemma LocalErrors(g: Grammar, pieces: seq<seq<byte>>, end: StreamEnd)
    requires LocalRequest(g, pieces, end).Err?
    ensures LocalRequest(g, pieces, end).error in {BadRequest, HeadersTooLarge, PayloadTooLarge}
  {
    var s := Flatten(pieces);
    HeadersTooLargeMeaning(s, end);
    if HeadOutcome(s, end).Ok? {
      ParseErrors(g, s[..HeadOutcome(s, end).value]);
    }
  }

  lemma ParseErrors(g: Grammar, head: seq<byte>)
    ensures ParseOutcome(g, head).Err? ==> ParseOutcome(g, head).error in {BadRequest, HeadersTooLarge, PayloadTooLarge}
  {
    if g.parse(head).Parsed? {
      FoldErrors(g, g.parse(head).headers);
    }
  }

  // ------------------------------------------------------- what is read, byte by byte

  /** A head that the parser and the fold accept takes the first `n` bytes. */
  ghost predicate HoldsHead(g: Grammar, s: seq<byte>, n: nat)
  {
    && n <= |s| && IsHead(s, n)
    && IsAcceptableLine(g, g.parse(s[..n])) && AcceptableHeaders(g, g.parse(s[..n]).headers)
  }

  ghost predicate SaysChunked(g: Grammar, headers: seq<Header>) {
    exists i: nat :: IsLastCoding(g, headers, i) && NamesChunked(TrimOptionalWhitespace(headers[i].value))
  }

  /** The `size` bytes behind the head are the body it announces; without a length there is none. */
  ghost predicate HoldsBody(g: Grammar, s: seq<byte>, n: nat, size: nat)
    requires n <= |s| && g.parse(s[..n]).Parsed?
  {
    && n + size <= |s|
    && (Says(g, g.parse(s[..n]).headers, size)
        || (size == 0 && forall m: nat :: !Says(g, g.parse(s[..n]).headers, m)))
  }

  /** The request is what the parser reports of those bytes, its headers normalised, and the body behind. */
  ghost predicate IsRequest(g: Grammar, s: seq<byte>, n: nat, request: Request)
    requires n <= |s| && g.parse(s[..n]).Parsed?
  {
    var raw := g.parse(s[..n]);
    && raw.method_ == Some(request.method_) && raw.path == Some(request.target)
    && Normalises(g, raw.headers, request.headers)
    && HoldsBody(g, s, n, |request.body|) && s[n..n + |request.body|] == request.body
  }

  lemma FrameMeaning(g: Grammar, s: seq<byte>, end: StreamEnd, n: nat)
    ensures FrameOutcome(g, s, end).Ok? && FrameOutcome(g, s, end).value.headLength == n <==> HoldsHead(g, s, n)
    ensures HoldsHead(g, s, n) ==> FrameOutcome(g, s, end).value.parsed == ParseOutcome(g, s[..n]).value
  {
    HeadMeaning(s, end, n);
    if n <= |s| {
      ParseMeaning(g, s[..n]);
    }
  }

  lemma BodyMeaning(g: Grammar, s: seq<byte>, end: StreamEnd, n: nat, size: nat)
    requires HoldsHead(g, s, n) && FrameOutcome(g, s, end).Ok? && FrameOutcome(g, s, end).value.headLength == n
    requires FrameOutcome(g, s, end).value.parsed == ParseOutcome(g, s[..n]).value
    ensures HoldsBody(g, s, n, size) <==> n + size <= |s| && FrameOutcome(g, s, end).value.BodyLength() == size
  {
    ParseMeaning(g, s[..n]);
  }

  /** The stream holds that request in full, its head `n` bytes long. */
  ghost predicate HoldsRequest(g: Grammar, s: seq<byte>, n: nat, request: Request) {
    HoldsHead(g, s, n) && !SaysChunked(g, g.parse(s[..n]).headers) && IsRequest(g, s, n, request)
  }

  lemma ReturnedIsHeld(g: Grammar, s: seq<byte>, end: StreamEnd, request: Request) returns (n: nat)
    requires ServerOutcome(g, s, end) == Ok(request)
    ensures HoldsRequest(g, s, n, request)
  {
    n := FrameOutcome(g, s, end).value.headLength;
    FrameMeaning(g, s, end, n);
    ParseMeaning(g, s[..n]);
    BodyMeaning(g, s, end, n, |request.body|);
  }

  lemma ParsedAs(g: Grammar, head: seq<byte>, request: Request)
    requires IsAcceptableLine(g, g.parse(head)) && AcceptableHeaders(g, g.parse(head).headers)
    requires !SaysChunked(g, g.parse(head).headers) && Normalises(g, g.parse(head).headers, request.headers)
    requires g.parse(head).method_ == Some(request.method_) && g.parse(head).path == Some(request.target)
    ensures ParseOutcome(g, head).Ok?
    ensures var parsed := ParseOutcome(g, head).value;
            && parsed.method_ == request.method_ && parsed.target == request.target
            && parsed.headers == request.headers && !parsed.hasChunkedBody
  {
    ParseMeaning(g, head);
    NormalFormIsUnique(g, g.parse(head).headers, ParseOutcome(g, head).value.headers, request.headers);
  }

  lemma ServerOfFrame(g: Grammar, s: seq<byte>, end: StreamEnd, framed: Framed, request: Request)
    requires FrameOutcome(g, s, end) == Ok(framed) && !framed.parsed.hasChunkedBody
    requires framed.parsed.method_ == request.method_ && framed.parsed.target == request.target
    requires framed.parsed.headers == request.headers && framed.BodyLength() == |request.body|
    requires framed.headLength + |request.body| <= |s|
    requires s[framed.headLength..framed.headLength + |request.body|] == request.body
    ensures ServerOutcome(g, s, end) == Ok(request)
  {
  }

  lemma HeldIsReturned(g: Grammar, s: seq<byte>, end: StreamEnd, request: Request, n: nat)
    requires HoldsRequest(g, s, n, request)
    ensures ServerOutcome(g, s, end) == Ok(request)
  {
    FrameMeaning(g, s, end, n);
    ParsedAs(g, s[..n], request);
    BodyMeaning(g, s, end, n, |request.body|);
    ServerOfFrame(g, s, end, FrameOutcome(g, s, end).value, request);
  }

  /**
   The server's reader returns a request if and only if the stream holds its head, does not
   call the body chunked, and holds the body announced: then that request.
   */
  lemma ServerOutcomeMeaning(g: Grammar, s: seq<byte>, end: StreamEnd, request: Request)
    ensures ServerOutcome(g, s, end) == Ok(request) <==> exists n: nat :: HoldsRequest(g, s, n, request)
  {
    if ServerOutcome(g, s, end) == Ok(request) {
      var n := ReturnedIsHeld(g, s, end, request);
    }
    if n: nat :| HoldsRequest(g, s, n, request) {
      HeldIsReturned(g, s, end, request, n);
    }
  }

  /** Those bytes are a head and the body it announces; only the head, if it calls the body chunked. */
  ghost predicate IsRaw(g: Grammar, s: seq<byte>, n: nat, raw: seq<byte>)
    requires n <= |s| && g.parse(s[..n]).Parsed?
  {
    && n <= |raw| && raw <= s
    && if SaysChunked(g, g.parse(s[..n]).headers) then |raw| == n else HoldsBody(g, s, n, |raw| - n)
  }

  lemma LocalOutcomeMeaning(g: Grammar, s: seq<byte>, end: StreamEnd, raw: seq<byte>, n: nat)
    requires HoldsHead(g, s, n) && raw <= s && n <= |raw|
    ensures LocalOutcome(g, s, end) == Ok(|raw|) <==> IsRaw(g, s, n, raw)
    ensures IsChunked(g, s, end) <==> SaysChunked(g, g.parse(s[..n]).headers)
  {
    FrameMeaning(g, s, end, n);
    ParseMeaning(g, s[..n]);
    BodyMeaning(g, s, end, n, |raw| - n);
  }

  ghost predicate EndsWithArrival(pieces: seq<seq<byte>>, raw: seq<byte>) {
    exists k :: 0 <= k <= |pieces| && Flatten(pieces[..k]) == raw
  }

  lemma EndsAtArrival(pieces: seq<seq<byte>>, raw: seq<byte>)
    requires raw <= Flatten(pieces)
    ensures NothingBufferedAfter(pieces, |raw|) <==> EndsWithArrival(pieces, raw)
  {
    forall k | 0 <= k <= |pieces| ensures Boundary(pieces, k) == |raw| <==> Flatten(pieces[..k]) == raw {
      assert pieces == pieces[..k] + pieces[k..];
      FlattenAppend(pieces[..k], pieces[k..]);
    }
    if k :| 0 <= k <= |pieces| && Flatten(pieces[..k]) == raw {
      assert Boundary(pieces, k) == |raw|;
    }
  }

  /** The bytes `s` of a stream cut into those pieces start with that request, its head `n` bytes long. */
  ghost predicate Offers(g: Grammar, pieces: seq<seq<byte>>, s: seq<byte>, n: nat, raw: seq<byte>) {
    && HoldsHead(g, s, n) && IsRaw(g, s, n, raw)
    && (SaysChunked(g, g.parse(s[..n]).headers) || EndsWithArrival(pieces, raw))
  }

  lemma LocalIsOffered(g: Grammar, pieces: seq<seq<byte>>, s: seq<byte>, end: StreamEnd, raw: seq<byte>)
    returns (n: nat)
    requires s == Flatten(pieces) && LocalRequest(g, pieces, end) == Ok(raw)
    ensures Offers(g, pieces, s, n, raw)
  {
    n := FrameOutcome(g, s, end).value.headLength;
    FrameMeaning(g, s, end, n);
    LocalOutcomeMeaning(g, s, end, raw, n);
    EndsAtArrival(pieces, raw);
  }

  lemma OfferedIsLocal(g: Grammar, pieces: seq<seq<byte>>, s: seq<byte>, end: StreamEnd, raw: seq<byte>, n: nat)
    requires s == Flatten(pieces) && Offers(g, pieces, s, n, raw)
    ensures LocalRequest(g, pieces, end) == Ok(raw)
  {
    LocalOutcomeMeaning(g, s, end, raw, n);
    EndsAtArrival(pieces, raw);
    assert s[..|raw|] == raw;
  }

  /**
   The local reader returns bytes if and only if they are the head and the announced body at
   the start of the stream and, unless the head calls the body chunked, some arrival ended
   just where they end.
   */
  lemma LocalRequestMeaning(g: Grammar, pieces: seq<seq<byte>>, s: seq<byte>, end: StreamEnd, raw: seq<byte>)
    requires s == Flatten(pieces)
    ensures LocalRequest(g, pieces, end) == Ok(raw) <==> exists n: nat :: Offers(g, pieces, s, n, raw)
  {
    if LocalRequest(g, pieces, end) == Ok(raw) {
      var n := LocalIsOffered(g, pieces, s, end, raw);
    } else if n: nat :| Offers(g, pieces, s, n, raw) {
      OfferedIsLocal(g, pieces, s, end, raw, n);
    }
  }
}

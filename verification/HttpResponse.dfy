/** What the proxy writes as an HTTP response: a plain response, or a forwarded one in chunks. */
module HttpResponse {
  import opened Bytes
  import opened Streams
  import opened HttpHeaders
  import opened Numerals

  const LAST_CHUNK: seq<byte> := [48] + CRLF + CRLF

  /** The provider's body: the chunks it yields, and whether it then ends or fails. */
  datatype BodyEnd = Ended | Broken

  datatype ProviderResponse = ProviderResponse(
    status: nat,
    reason: seq<byte>,
    headers: seq<Header>,
    chunks: seq<seq<byte>>,
    end: BodyEnd)

  // ------------------------------------------------------------------ the bytes

  /** Each line followed by CRLF, then `rest`. */
  function LinesThen(lines: seq<seq<byte>>, rest: seq<byte>): seq<byte>
  {
    if lines == [] then rest else (lines[0] + CRLF) + LinesThen(lines[1..], rest)
  }

  function StatusLine(status: nat, reason: seq<byte>): seq<byte>
  {
    Ascii("HTTP/1.1 ") + Numeral(status, 10) + [SPACE] + reason
  }

  function FieldLine(name: seq<byte>, value: seq<byte>): seq<byte>
  {
    name + [COLON, SPACE] + value
  }

  /** The status in three digits, as section 4 of RFC 9112 has it. */
  lemma StatusLineMeaning(status: nat, reason: seq<byte>)
    requires 100 <= status < 1000
    ensures StatusLine(status, reason) ==
            Ascii("HTTP/1.1 ") + [48 + status / 100, 48 + status / 10 % 10, 48 + status % 10] + [SPACE] + reason
  {
    assert Numeral(status / 100, 10) == [48 + status / 100];
    assert Numeral(status / 10, 10) == [48 + status / 100, 48 + status / 10 % 10];
  }

  const CONNECTION_CLOSE: seq<byte> := FieldLine(Ascii("connection"), Ascii("close"))
  const TRANSFER_CHUNKED: seq<byte> := FieldLine(Ascii("transfer-encoding"), Ascii("chunked"))
  const CONTENT_PLAIN: seq<byte> := FieldLine(Ascii("content-type"), Ascii("text/plain"))

  function ContentLengthLine(n: nat): seq<byte>
  {
    FieldLine(Ascii("content-length"), Numeral(n, 10))
  }

  function PlainFieldLines(n: nat): seq<seq<byte>>
  {
    [CONTENT_PLAIN, CONNECTION_CLOSE, ContentLengthLine(n)]
  }

  predicate ShouldForwardResponseHeader(name: seq<byte>)
  {
    name !in [Ascii("content-length"), Ascii("connection"), Ascii("transfer-encoding"), Ascii("keep-alive"),
              Ascii("proxy-authenticate"), Ascii("proxy-authorization"),
              Ascii("te"), Ascii("trailer"), Ascii("upgrade")]
  }

  /** The fields that section 13.5.1 of RFC 2616 names as meant for one connection only. */
  function HopByHop(): seq<seq<byte>> {
    [Ascii("connection"), Ascii("keep-alive"), Ascii("proxy-authenticate"), Ascii("proxy-authorization"),
     Ascii("te"), Ascii("trailer"), Ascii("transfer-encoding"), Ascii("upgrade")]
  }

  /** Of a response all fields but those and its length are passed on. */
  lemma ResponseFilterMeaning(name: seq<byte>)
    ensures ShouldForwardResponseHeader(name) <==> name !in HopByHop() && name != Ascii("content-length")
    ensures ShouldForwardResponseHeader(Ascii("content-type")) && ShouldForwardResponseHeader(Ascii("retry-after"))
  {
  }

  function ForwardedLines(headers: seq<Header>): seq<seq<byte>>
  {
    if headers == [] then []
    else
      (if ShouldForwardResponseHeader(headers[0].name) then
         [FieldLine(LowerAll(headers[0].name), headers[0].value)] else [])
      + ForwardedLines(headers[1..])
  }

  function ForwardedHeadLines(r: ProviderResponse): seq<seq<byte>>
  {
    [StatusLine(r.status, r.reason)] + (ForwardedLines(r.headers) + [CONNECTION_CLOSE, TRANSFER_CHUNKED])
  }

  /** One frame per chunk: its size in hexadecimal, its bytes; then `rest`. */
  function FramesThen(chunks: seq<seq<byte>>, rest: seq<byte>): seq<byte>
  {
    if chunks == [] then rest
    else (Numeral(|chunks[0]|, 16) + CRLF) + (chunks[0] + (CRLF + FramesThen(chunks[1..], rest)))
  }

  /** Frames, closed by the zero chunk only if the provider's body ended. */
  function FramedBody(chunks: seq<seq<byte>>, end: BodyEnd): seq<byte>
  {
    FramesThen(chunks, if end.Ended? then LAST_CHUNK else [])
  }

  function ForwardedMessage(r: ProviderResponse): seq<byte>
  {
    LinesThen(ForwardedHeadLines(r), CRLF + FramedBody(r.chunks, r.end))
  }

  function PlainHeadLines(status: nat, reason: seq<byte>, body: seq<byte>): seq<seq<byte>>
  {
    [StatusLine(status, reason)] + PlainFieldLines(|body|)
  }

  function PlainResponse(status: nat, reason: seq<byte>, body: seq<byte>): seq<byte>
  {
    LinesThen(PlainHeadLines(status, reason, body), CRLF + body)
  }

  // ---------------------------------------------------------------- writing them

  /** One `write_all`, the bytes `later` being still to follow. */
  method Emit(send: Writer, piece: seq<byte>, ghost later: seq<byte>) returns (ok: bool)
    modifies send`output, send`outcomes
    ensures old(send.output) <= send.output <= old(send.output) + (piece + later)
    ensures ok ==> send.output + later == old(send.output) + (piece + later) && send.output == old(send.output) + piece
    ensures old(send.Reliable()) ==> ok && send.Reliable()
  {
    Regroup(send.output, piece, later);
    ok := send.WriteAll(piece);
  }

  method WritePlainResponse(send: Writer, status: nat, reason: seq<byte>, body: seq<byte>) returns (ok: bool)
    modifies send`output, send`outcomes
    ensures old(send.output) <= send.output <= old(send.output) + PlainResponse(status, reason, body)
    ensures ok ==> send.output == old(send.output) + PlainResponse(status, reason, body)
    ensures old(send.Reliable()) ==> ok && send.Reliable()
  {
    ghost var lines: seq<seq<byte>> := PlainHeadLines(status, reason, body);
    ghost var tail := CRLF + body;
    assert lines[1..][1..] == lines[2..] && lines[2..][1..] == lines[3..] && lines[3..] == [ContentLengthLine(|body|)];
    OneLineThen(ContentLengthLine(|body|), tail);
    assert body + [] == body;
    ok := Emit(send, StatusLine(status, reason) + CRLF, LinesThen(lines[1..], tail));
    if !ok { return; }
    ok := Emit(send, CONTENT_PLAIN + CRLF, LinesThen(lines[2..], tail));
    if !ok { return; }
    ok := Emit(send, CONNECTION_CLOSE + CRLF, LinesThen(lines[3..], tail));
    if !ok { return; }
    ok := Emit(send, ContentLengthLine(|body|) + CRLF, tail);
    if !ok { return; }
    ok := Emit(send, CRLF, body);
    if !ok { return; }
    ok := Emit(send, body, []);
    assert ok ==> send.output + [] == send.output;
  }

  method WriteResponseChunk(send: Writer, chunk: seq<byte>, ghost later: seq<byte>) returns (ok: bool)
    modifies send`output, send`outcomes
    ensures old(send.output) <= send.output <= old(send.output) + FramesThen([chunk], later)
    ensures ok ==> send.output + later == old(send.output) + FramesThen([chunk], later)
    ensures old(send.Reliable()) ==> ok && send.Reliable()
  {
    assert FramesThen([chunk][1..], later) == later;
    ok := Emit(send, Numeral(|chunk|, 16) + CRLF, chunk + (CRLF + later));
    if !ok { return; }
    ok := Emit(send, chunk, CRLF + later);
    if !ok { return; }
    ok := Emit(send, CRLF, later);
  }

  /** Writes the blank line, the frames of the chunks as they come, and the zero chunk at the end. */
  method WriteChunkedBody(send: Writer, chunks: seq<seq<byte>>, end: BodyEnd) returns (ok: bool)
    modifies send`output, send`outcomes
    ensures old(send.output) <= send.output <= old(send.output) + (CRLF + FramedBody(chunks, end))
    ensures ok ==> end.Ended? && send.output == old(send.output) + (CRLF + FramedBody(chunks, end))
    ensures old(send.Reliable()) ==>
              && send.Reliable() && ok == end.Ended?
              && send.output == old(send.output) + (CRLF + FramedBody(chunks, end))
  {
    ghost var message := old(send.output) + (CRLF + FramedBody(chunks, end));
    ghost var tail := if end.Ended? then LAST_CHUNK else [];
    ok := Emit(send, CRLF, FramedBody(chunks, end));
    if !ok { return; }
    for i := 0 to |chunks|
      invariant old(send.Reliable()) ==> send.Reliable()
      invariant old(send.output) <= send.output
      invariant message == send.output + FramesThen(chunks[i..], tail)
    {
      FramesThenStep(chunks[i..], tail);
      assert chunks[i..][1..] == chunks[i + 1..];
      ok := WriteResponseChunk(send, chunks[i], FramesThen(chunks[i + 1..], tail));
      if !ok { return; }
    }
    if end.Broken? {
      assert send.output + [] == send.output;
      return false;
    }
    ok := Emit(send, LAST_CHUNK, []);
  }

  lemma FramesThenStep(chunks: seq<seq<byte>>, rest: seq<byte>)
    requires chunks != []
    ensures FramesThen(chunks, rest) == FramesThen([chunks[0]], FramesThen(chunks[1..], rest))
  {
    assert FramesThen([chunks[0]][1..], FramesThen(chunks[1..], rest)) == FramesThen(chunks[1..], rest);
  }

  lemma {:induction false} ForwardedLinesAppend(left: seq<Header>, right: seq<Header>)
    ensures ForwardedLines(left + right) == ForwardedLines(left) + ForwardedLines(right)
  {
    if left == [] {
      assert left + right == right;
    } else {
      ForwardedLinesAppend(left[1..], right);
      assert (left + right)[1..] == left[1..] + right;
      Regroup(if ShouldForwardResponseHeader(left[0].name) then
                [FieldLine(LowerAll(left[0].name), left[0].value)] else [],
              ForwardedLines(left[1..]), ForwardedLines(right));
    }
  }

  /** A field in any place is passed on under its lower-case name and with its value, or left out by its name. */
  lemma ForwardedLinesMeaning(left: seq<Header>, header: Header, right: seq<Header>)
    ensures ForwardedLines(left + ([header] + right)) ==
            ForwardedLines(left) + (ForwardedLines([header]) + ForwardedLines(right))
    ensures ForwardedLines([header]) ==
            if header.name in HopByHop() || header.name == Ascii("content-length") then []
            else [LowerAll(header.name) + Ascii(": ") + header.value]
  {
    ForwardedLinesAppend(left, [header] + right);
    ForwardedLinesAppend([header], right);
    ResponseFilterMeaning(header.name);
    assert Ascii(": ") == [COLON, SPACE] && [header][1..] == [];
  }

  lemma OneLineThen(line: seq<byte>, rest: seq<byte>)
    ensures LinesThen([line], rest) == (line + CRLF) + rest
  {
    assert LinesThen([line][1..], rest) == rest;
  }

  lemma ForwardedLinesStep(headers: seq<Header>, last: seq<seq<byte>>, rest: seq<byte>)
    requires headers != []
    ensures var later := LinesThen(ForwardedLines(headers[1..]) + last, rest);
            LinesThen(ForwardedLines(headers) + last, rest) ==
            if ShouldForwardResponseHeader(headers[0].name)
            then (FieldLine(LowerAll(headers[0].name), headers[0].value) + CRLF) + later
            else later
  {
    var front := ForwardedLines(headers[1..]);
    if ShouldForwardResponseHeader(headers[0].name) {
      var line := FieldLine(LowerAll(headers[0].name), headers[0].value);
      assert (([line] + front) + last)[1..] == front + last;
    } else {
      assert [] + front == front;
    }
  }

  /** Name, separator, value and line end, each with its own write. */
  method EmitField(send: Writer, name: seq<byte>, value: seq<byte>, ghost later: seq<byte>) returns (ok: bool)
    modifies send`output, send`outcomes
    ensures old(send.output) <= send.output <= old(send.output) + ((FieldLine(name, value) + CRLF) + later)
    ensures ok ==> send.output + later == old(send.output) + ((FieldLine(name, value) + CRLF) + later)
    ensures old(send.Reliable()) ==> ok && send.Reliable()
  {
    assert (FieldLine(name, value) + CRLF) + later == name + ([COLON, SPACE] + (value + (CRLF + later)));
    ok := Emit(send, name, [COLON, SPACE] + (value + (CRLF + later)));
    if !ok { return; }
    ok := Emit(send, [COLON, SPACE], value + (CRLF + later));
    if !ok { return; }
    ok := Emit(send, value, CRLF + later);
    if !ok { return; }
    ok := Emit(send, CRLF, later);
  }

  /**
   Writes a provider response whose first chunk, if any, is already at hand. Whatever a
   failing write leaves behind is a prefix of the message; the zero chunk is written only
   after the provider's body has ended.
   */
  method WriteHttpResponse(send: Writer, response: ProviderResponse) returns (ok: bool)
    modifies send`output, send`outcomes
    ensures old(send.output) <= send.output <= old(send.output) + ForwardedMessage(response)
    ensures ok ==> response.end.Ended? && send.output == old(send.output) + ForwardedMessage(response)
    ensures old(send.Reliable()) ==>
              && send.Reliable() && ok == response.end.Ended?
              && send.output == old(send.output) + ForwardedMessage(response)
  {
    ghost var message := old(send.output) + ForwardedMessage(response);
    ghost var body := CRLF + FramedBody(response.chunks, response.end);
    ghost var last := [CONNECTION_CLOSE, TRANSFER_CHUNKED];
    assert ForwardedHeadLines(response)[1..] == ForwardedLines(response.headers) + last;
    ok := Emit(send, StatusLine(response.status, response.reason) + CRLF,
               LinesThen(ForwardedLines(response.headers) + last, body));
    if !ok { return; }
    for i := 0 to |response.headers|
      invariant old(send.Reliable()) ==> send.Reliable()
      invariant old(send.output) <= send.output
      invariant message == send.output + LinesThen(ForwardedLines(response.headers[i..]) + last, body)
    {
      var header := response.headers[i];
      assert response.headers[i..][1..] == response.headers[i + 1..];
      ForwardedLinesStep(response.headers[i..], last, body);
      if ShouldForwardResponseHeader(header.name) {
        ghost var later := LinesThen(ForwardedLines(response.headers[i + 1..]) + last, body);
        ok := EmitField(send, LowerAll(header.name), header.value, later);
        if !ok { return; }
      }
    }
    assert response.headers[|response.headers|..] == [] && [] + last == last && last[1..] == [TRANSFER_CHUNKED];
    OneLineThen(TRANSFER_CHUNKED, body);
    ok := Emit(send, CONNECTION_CLOSE + CRLF, LinesThen([TRANSFER_CHUNKED], body));
    if !ok { return; }
    ok := Emit(send, TRANSFER_CHUNKED + CRLF, body);
    if !ok { return; }
    ok := WriteChunkedBody(send, response.chunks, response.end);
  }
}

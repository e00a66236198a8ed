/**
 A recipient's view of a response: the framing of sections 4, 6 and 7.1 of RFC 9112,
 written independently of the writer, and what it makes of everything the proxy writes.
 */
module HttpDecoding {
  import opened Bytes
  import opened HttpHeaders
  import opened HttpResponse
  import opened Numerals

  // -------------------------------------------------------------------- the decoder

  /** The first line of `s`, up to CRLF, and what follows it. */
  function ReadLine(s: seq<byte>): (r: Option<(seq<byte>, seq<byte>)>)
    ensures r.Some? ==> |r.value.1| < |s|
  {
    if |s| < 2 then None
    else if s[0] == CR && s[1] == LF then Some(([], s[2..]))
    else
      match ReadLine(s[1..])
      case None => None
      case Some((line, rest)) => Some(([s[0]] + line, rest))
  }

  /** Lines through the first empty one, and what follows it. */
  function ReadFields(s: seq<byte>): (r: Option<(seq<seq<byte>>, seq<byte>)>)
    ensures r.Some? ==> |r.value.1| < |s|
    decreases |s|
  {
    match ReadLine(s)
    case None => None
    case Some((line, rest)) =>
      if line == [] then Some(([], rest))
      else
        match ReadFields(rest)
        case None => None
        case Some((lines, after)) => Some(([line] + lines, after))
  }

  datatype Decoded = Incomplete | Invalid | Whole(head: seq<seq<byte>>, body: seq<byte>, rest: seq<byte>)

  const SEMICOLON: byte := 59

  /** Section 7.1: sized chunks, a last chunk of size zero, a trailer section, an empty line. */
  function DecodeChunks(head: seq<seq<byte>>, s: seq<byte>): Decoded
    decreases |s|
  {
    match ReadLine(s)
    case None => Incomplete
    case Some((line, rest)) =>
      match ReadNumeral(UpTo(line, SEMICOLON), 16)
      case None => Invalid
      case Some(size) =>
        if size == 0 then
          match ReadFields(rest)
          case None => Incomplete
          case Some((_, after)) => Whole(head, [], after)
        else if |rest| < size + 2 then Incomplete
        else if rest[size..size + 2] != CRLF then Invalid
        else
          match DecodeChunks(head, rest[size + 2..])
          case Whole(h, body, after) => Whole(h, rest[..size] + body, after)
          case other => other
  }

  /** The values of the fields of that name, in order, surrounding blanks removed. */
  function FieldValues(fields: seq<seq<byte>>, name: seq<byte>): seq<seq<byte>>
  {
    if fields == [] then []
    else
      var n := UpTo(fields[0], COLON);
      (if LowerAll(n) == name && |n| < |fields[0]| then [TrimOptionalWhitespace(fields[0][|n| + 1..])] else [])
      + FieldValues(fields[1..], name)
  }

  /** The three digits of a status line (section 4). */
  function StatusOf(line: seq<byte>): Option<nat>
  {
    var version := UpTo(line, SPACE);
    if |version| >= |line| then None
    else
      var digits := UpTo(line[|version| + 1..], SPACE);
      if |digits| == 3 then ReadNumeral(digits, 10) else None
  }

  /** Section 6.3, rules 1 and 2: the responses that end at the blank line whatever their fields say. */
  predicate MayHaveBody(requestMethod: seq<byte>, status: nat) {
    && requestMethod != Ascii("HEAD")
    && !(100 <= status < 200) && status != 204 && status != 304
    && !(requestMethod == Ascii("CONNECT") && 200 <= status < 300)
  }

  /** The last transfer coding of the last field is "chunked". */
  predicate IsChunkedLast(codings: seq<seq<byte>>)
    requires codings != []
  {
    var last := Split(codings[|codings| - 1], COMMA);
    LowerAll(TrimOptionalWhitespace(last[|last| - 1])) == Ascii("chunked")
  }

  /**
   Section 6.3, rules 3 to 8: a Transfer-Encoding overrides a Content-Length; lengths must
   agree; a body that only the close of the connection ends is never complete by itself.
   */
  function DecodeBody(lines: seq<seq<byte>>, rest: seq<byte>): Decoded
    requires lines != []
  {
    var codings := FieldValues(lines[1..], Ascii("transfer-encoding"));
    var lengths := FieldValues(lines[1..], Ascii("content-length"));
    if codings != [] then if IsChunkedLast(codings) then DecodeChunks(lines, rest) else Incomplete
    else if lengths == [] then Incomplete
    else if exists length <- lengths :: length != lengths[0] then Invalid
    else
      match ReadNumeral(lengths[0], 10)
      case None => Invalid
      case Some(n) => if |rest| < n then Incomplete else Whole(lines, rest[..n], rest[n..])
  }

  /** The response at the start of `s` to a request with that method. */
  function DecodeMessage(requestMethod: seq<byte>, s: seq<byte>): Decoded
  {
    match ReadFields(s)
    case None => Incomplete
    case Some((lines, rest)) =>
      if lines == [] then Invalid
      else
        match StatusOf(lines[0])
        case None => Invalid
        case Some(status) =>
          if MayHaveBody(requestMethod, status) then DecodeBody(lines, rest) else Whole(lines, [], rest)
  }

  // ---------------------------------------------- what is complete stays complete

  lemma {:induction false} ReadLineStable(s: seq<byte>, more: seq<byte>)
    requires ReadLine(s).Some?
    ensures ReadLine(s + more) == Some((ReadLine(s).value.0, ReadLine(s).value.1 + more))
  {
    if s[0] == CR && s[1] == LF {
      assert (s + more)[2..] == s[2..] + more;
    } else {
      ReadLineStable(s[1..], more);
      assert (s + more)[1..] == s[1..] + more;
    }
  }

  lemma {:induction false} ReadFieldsStable(s: seq<byte>, more: seq<byte>)
    requires ReadFields(s).Some?
    ensures ReadFields(s + more) == Some((ReadFields(s).value.0, ReadFields(s).value.1 + more))
    decreases |s|
  {
    ReadLineStable(s, more);
    var (line, rest) := ReadLine(s).value;
    if line != [] {
      ReadFieldsStable(rest, more);
    }
  }

  lemma {:induction false} DecodeChunksStable(head: seq<seq<byte>>, s: seq<byte>, more: seq<byte>)
    requires DecodeChunks(head, s).Whole?
    ensures DecodeChunks(head, s + more) == DecodeChunks(head, s).(rest := DecodeChunks(head, s).rest + more)
    decreases |s|
  {
    ReadLineStable(s, more);
    var (line, rest) := ReadLine(s).value;
    var size := ReadNumeral(UpTo(line, SEMICOLON), 16).value;
    if size == 0 {
      ReadFieldsStable(rest, more);
    } else {
      DecodeChunksStable(head, rest[size + 2..], more);
      SlicesStable(rest, size, more);
    }
  }

  lemma SlicesStable(s: seq<byte>, n: nat, more: seq<byte>)
    requires n + 2 <= |s|
    ensures (s + more)[..n] == s[..n]
    ensures (s + more)[n..n + 2] == s[n..n + 2]
    ensures (s + more)[n + 2..] == s[n + 2..] + more
  {
  }

  lemma DecodeBodyStable(lines: seq<seq<byte>>, rest: seq<byte>, more: seq<byte>)
    requires lines != [] && DecodeBody(lines, rest).Whole?
    ensures DecodeBody(lines, rest + more) == DecodeBody(lines, rest).(rest := DecodeBody(lines, rest).rest + more)
  {
    if FieldValues(lines[1..], Ascii("transfer-encoding")) != [] {
      DecodeChunksStable(lines, rest, more);
    } else {
      var n := ReadNumeral(FieldValues(lines[1..], Ascii("content-length"))[0], 10).value;
      assert (rest + more)[..n] == rest[..n] && (rest + more)[n..] == rest[n..] + more;
    }
  }

  /** Bytes after a whole message are left over; they never change the message. */
  lemma DecodeMessageStable(requestMethod: seq<byte>, s: seq<byte>, more: seq<byte>)
    requires DecodeMessage(requestMethod, s).Whole?
    ensures var decoded := DecodeMessage(requestMethod, s);
            DecodeMessage(requestMethod, s + more) == decoded.(rest := decoded.rest + more)
  {
    ReadFieldsStable(s, more);
    var (lines, rest) := ReadFields(s).value;
    if MayHaveBody(requestMethod, StatusOf(lines[0]).value) {
      DecodeBodyStable(lines, rest, more);
    }
  }

  /** A message that decodes with nothing left over is complete at no earlier byte. */
  lemma NoEarlierEnd(requestMethod: seq<byte>, message: seq<byte>, cut: seq<byte>)
    requires DecodeMessage(requestMethod, message).Whole? && DecodeMessage(requestMethod, message).rest == []
    requires cut <= message && cut != message
    ensures !DecodeMessage(requestMethod, cut).Whole?
  {
    if DecodeMessage(requestMethod, cut).Whole? {
      assert message == cut + message[|cut|..];
      DecodeMessageStable(requestMethod, cut, message[|cut|..]);
    }
  }

  /** Of a stream that starts with such a message, exactly the prefixes that hold all of it are complete. */
  lemma CompleteFrom(requestMethod: seq<byte>, message: seq<byte>, received: seq<byte>, stream: seq<byte>)
    requires DecodeMessage(requestMethod, message).Whole? && DecodeMessage(requestMethod, message).rest == []
    requires message <= stream && received <= stream
    ensures DecodeMessage(requestMethod, received).Whole? <==> message <= received
    ensures message <= received ==>
              DecodeMessage(requestMethod, received) ==
              DecodeMessage(requestMethod, message).(rest := received[|message|..])
  {
    if message <= received {
      assert received == message + received[|message|..];
      DecodeMessageStable(requestMethod, message, received[|message|..]);
      assert [] + received[|message|..] == received[|message|..];
    } else {
      assert received <= message && received != message;
      NoEarlierEnd(requestMethod, message, received);
    }
  }

  // -------------------------------------------------- what the writer writes decodes

  ghost predicate NoLineEnds(s: seq<byte>) {
    CR !in s && LF !in s
  }

  lemma {:induction false} ReadLineOf(line: seq<byte>, rest: seq<byte>)
    requires NoLineEnds(line)
    ensures ReadLine((line + CRLF) + rest) == Some((line, rest))
  {
    var s := (line + CRLF) + rest;
    if line == [] {
      assert s[2..] == rest;
    } else {
      assert line[0] in line && [line[0]] + line[1..] == line;
      ReadLineOf(line[1..], rest);
      assert s[1..] == (line[1..] + CRLF) + rest;
    }
  }

  lemma {:induction false} ReadFieldsOf(lines: seq<seq<byte>>, rest: seq<byte>)
    requires forall l :: l in lines ==> l != [] && NoLineEnds(l)
    ensures ReadFields(LinesThen(lines, CRLF + rest)) == Some((lines, rest))
  {
    if lines == [] {
      ReadLineOf([], rest);
      assert [] + CRLF == CRLF;
    } else {
      ReadLineOf(lines[0], LinesThen(lines[1..], CRLF + rest));
      assert lines[0] in lines && forall l :: l in lines[1..] ==> l in lines;
      ReadFieldsOf(lines[1..], rest);
      assert [lines[0]] + lines[1..] == lines;
    }
  }

  lemma SizeLineOf(n: nat)
    ensures NoLineEnds(Numeral(n, 16)) && ReadNumeral(UpTo(Numeral(n, 16), SEMICOLON), 16) == Some(n)
  {
    forall b | b in Numeral(n, 16) ensures DigitValue(b).Some? {
      NumeralIsDigits(n, 16, b);
    }
    UpToEnd(Numeral(n, 16), SEMICOLON, []);
    NumeralRoundTrip(n, 16);
  }

  lemma DecodeChunksStep(head: seq<seq<byte>>, s: seq<byte>, line: seq<byte>, chunk: seq<byte>, later: seq<byte>)
    requires ReadLine(s) == Some((line, chunk + (CRLF + later)))
    requires chunk != [] && ReadNumeral(UpTo(line, SEMICOLON), 16) == Some(|chunk|)
    ensures DecodeChunks(head, s) ==
            match DecodeChunks(head, later)
            case Whole(h, body, after) => Whole(h, chunk + body, after)
            case other => other
  {
    var rest := chunk + (CRLF + later);
    assert rest[..|chunk|] == chunk && rest[|chunk|..|chunk| + 2] == CRLF && rest[|chunk| + 2..] == later;
  }

  /** One frame decodes to its chunk, in front of what the rest decodes to. */
  lemma DecodeFrame(head: seq<seq<byte>>, chunk: seq<byte>, later: seq<byte>, body: seq<byte>)
    requires chunk != [] && DecodeChunks(head, later) == Whole(head, body, [])
    ensures DecodeChunks(head, (Numeral(|chunk|, 16) + CRLF) + (chunk + (CRLF + later))) ==
            Whole(head, chunk + body, [])
  {
    var size := Numeral(|chunk|, 16);
    SizeLineOf(|chunk|);
    ReadLineOf(size, chunk + (CRLF + later));
    DecodeChunksStep(head, (size + CRLF) + (chunk + (CRLF + later)), size, chunk, later);
  }

  /** Frames of non-empty chunks and a zero chunk decode to the chunks put together. */
  lemma {:induction false} DecodeFrames(head: seq<seq<byte>>, chunks: seq<seq<byte>>)
    requires AllNonEmpty(chunks)
    ensures DecodeChunks(head, FramesThen(chunks, LAST_CHUNK)) == Whole(head, Flatten(chunks), [])
  {
    if chunks == [] {
      DecodeLastChunk(head, []);
      assert LAST_CHUNK + [] == LAST_CHUNK;
    } else {
      DecodeFrames(head, chunks[1..]);
      DecodeFrame(head, chunks[0], FramesThen(chunks[1..], LAST_CHUNK), Flatten(chunks[1..]));
    }
  }

  lemma DecodeLastChunk(head: seq<seq<byte>>, more: seq<byte>)
    ensures DecodeChunks(head, LAST_CHUNK + more) == Whole(head, [], more)
  {
    assert LAST_CHUNK + more == ([48] + CRLF) + (CRLF + more);
    ReadLineOf([48], CRLF + more);
    ReadFieldsOf([], more);
    assert Numeral(0, 16) == [48];
    SizeLineOf(0);
  }

  // ------------------------------------------------------------- heads as written

  /** Lower-case tokens for names, no line ends in values, three digits of status: the HTTP library guarantees it. */
  ghost predicate WellFormedHeader(h: Header) {
    && h.name != [] && NoLineEnds(h.name) && COLON !in h.name && LowerAll(h.name) == h.name
    && NoLineEnds(h.value)
  }

  ghost predicate WellFormedResponse(r: ProviderResponse) {
    && 100 <= r.status <= 999
    && NoLineEnds(r.reason)
    && forall h :: h in r.headers ==> WellFormedHeader(h)
  }

  lemma StatusLineClean(status: nat, reason: seq<byte>)
    requires NoLineEnds(reason)
    ensures StatusLine(status, reason) != [] && NoLineEnds(StatusLine(status, reason))
  {
    forall b | b in Numeral(status, 10) ensures DigitValue(b).Some? {
      NumeralIsDigits(status, 10, b);
    }
  }

  lemma ThreeDigits(status: nat)
    requires 100 <= status <= 999
    ensures |Numeral(status, 10)| == 3 && SPACE !in Numeral(status, 10)
  {
    assert |Numeral(status / 10, 10)| == 2;
    if SPACE in Numeral(status, 10) {
      NumeralIsDigits(status, 10, SPACE);
    }
  }

  /** A status line as written reads back as its status. */
  lemma StatusLineReads(status: nat, reason: seq<byte>)
    requires 100 <= status <= 999
    ensures StatusOf(StatusLine(status, reason)) == Some(status)
  {
    var version, digits := Ascii("HTTP/1.1"), Numeral(status, 10);
    var line := StatusLine(status, reason);
    assert line == version + ([SPACE] + (digits + ([SPACE] + reason)));
    UpToEnd(version, SPACE, digits + ([SPACE] + reason));
    assert line[|version| + 1..] == digits + ([SPACE] + reason);
    ThreeDigits(status);
    UpToEnd(digits, SPACE, reason);
    NumeralRoundTrip(status, 10);
  }

  /** Lower-case token bytes: what header names and the proxy's own header values are made of. */
  ghost predicate IsLowerToken(s: seq<byte>) {
    s != [] && forall i :: 0 <= i < |s| ==> 33 <= s[i] <= 126 && s[i] != COLON && !(65 <= s[i] <= 90)
  }

  lemma LiteralIsToken(text: string)
    requires text != "" && forall i :: 0 <= i < |text| ==> '-' <= text[i] <= '9' || 'a' <= text[i] <= 'z'
    ensures IsLowerToken(Ascii(text))
  {
  }

  lemma ForwardedTokens()
    ensures IsLowerToken(Ascii("connection")) && IsLowerToken(Ascii("close"))
    ensures IsLowerToken(Ascii("transfer-encoding")) && IsLowerToken(Ascii("chunked"))
  {
    LiteralIsToken("connection");
    LiteralIsToken("close");
    LiteralIsToken("transfer-encoding");
    LiteralIsToken("chunked");
  }

  lemma PlainTokens()
    ensures IsLowerToken(Ascii("content-type")) && IsLowerToken(Ascii("text/plain"))
    ensures IsLowerToken(Ascii("content-length"))
  {
    LiteralIsToken("content-type");
    LiteralIsToken("text/plain");
    LiteralIsToken("content-length");
  }

  lemma TokenFacts(s: seq<byte>)
    requires IsLowerToken(s)
    ensures s != [] && NoLineEnds(s) && COLON !in s && LowerAll(s) == s
    ensures !IsOptionalWhitespace(s[0]) && !IsOptionalWhitespace(s[|s| - 1])
  {
  }

  /** A field the proxy writes reads back as its name and its value. */
  lemma TokenField(name: seq<byte>, value: seq<byte>, fields: seq<seq<byte>>, wanted: seq<byte>)
    requires IsLowerToken(name) && IsLowerToken(value) && fields != [] && fields[0] == FieldLine(name, value)
    ensures fields[0] != [] && NoLineEnds(fields[0])
    ensures FieldValues(fields, wanted) == (if wanted == name then [value] else []) + FieldValues(fields[1..], wanted)
  {
    TokenFacts(name);
    TokenFacts(value);
    FieldLineReads(name, value);
    TrimLeadingSpace(value);
  }

  lemma TrimLeadingSpace(value: seq<byte>)
    requires value != [] && !IsOptionalWhitespace(value[0]) && !IsOptionalWhitespace(value[|value| - 1])
    ensures TrimOptionalWhitespace([SPACE] + value) == value
  {
    assert ([SPACE] + value)[1..] == value;
    assert TrimStart(value) == value;
  }

  lemma FieldLineReads(name: seq<byte>, value: seq<byte>)
    requires name != [] && COLON !in name && LowerAll(name) == name
    ensures UpTo(FieldLine(name, value), COLON) == name
    ensures FieldLine(name, value)[|name| + 1..] == [SPACE] + value
  {
    UpToEnd(name, COLON, [SPACE] + value);
    assert FieldLine(name, value) == name + ([COLON] + ([SPACE] + value));
  }

  lemma ForwardedFieldSkipped(h: Header, later: seq<seq<byte>>, name: seq<byte>)
    requires WellFormedHeader(h) && h.name != name
    ensures FieldLine(h.name, h.value) != [] && NoLineEnds(FieldLine(h.name, h.value))
    ensures FieldValues([FieldLine(h.name, h.value)] + later, name) == FieldValues(later, name)
  {
    FieldLineReads(h.name, h.value);
    assert ([FieldLine(h.name, h.value)] + later)[1..] == later
           && [] + FieldValues(later, name) == FieldValues(later, name);
  }

  lemma {:induction false} ForwardedLinesClean(headers: seq<Header>)
    requires forall h :: h in headers ==> WellFormedHeader(h)
    ensures forall l :: l in ForwardedLines(headers) ==> l != [] && NoLineEnds(l)
  {
    if headers != [] {
      var h := headers[0];
      assert h in headers && forall x :: x in headers[1..] ==> x in headers;
      ForwardedLinesClean(headers[1..]);
      assert LowerAll(h.name) == h.name;
    }
  }

  lemma ForwardedLineRead(h: Header, front: seq<seq<byte>>, last: seq<seq<byte>>, name: seq<byte>)
    requires WellFormedHeader(h) && !ShouldForwardResponseHeader(name)
    ensures var line := if ShouldForwardResponseHeader(h.name) then [FieldLine(LowerAll(h.name), h.value)] else [];
            FieldValues((line + front) + last, name) == FieldValues(front + last, name)
  {
    assert LowerAll(h.name) == h.name;
    if ShouldForwardResponseHeader(h.name) {
      ForwardedFieldSkipped(h, front + last, name);
      assert ([FieldLine(h.name, h.value)] + front) + last == [FieldLine(h.name, h.value)] + (front + last);
    } else {
      assert [] + front == front;
    }
  }

  /** A field the filter lets through is not one that frames the message. */
  lemma {:induction false} ForwardedLinesRead(headers: seq<Header>, last: seq<seq<byte>>, name: seq<byte>)
    requires forall h :: h in headers ==> WellFormedHeader(h)
    requires !ShouldForwardResponseHeader(name)
    ensures FieldValues(ForwardedLines(headers) + last, name) == FieldValues(last, name)
  {
    if headers == [] {
      assert ForwardedLines(headers) + last == last;
    } else {
      assert headers[0] in headers && forall x :: x in headers[1..] ==> x in headers;
      ForwardedLinesRead(headers[1..], last, name);
      ForwardedLineRead(headers[0], ForwardedLines(headers[1..]), last, name);
    }
  }

  /** How the two fields the proxy adds to a forwarded head read. */
  lemma OwnFields()
    ensures var last := [CONNECTION_CLOSE, TRANSFER_CHUNKED];
            && (forall l :: l in last ==> l != [] && NoLineEnds(l))
            && FieldValues(last, Ascii("transfer-encoding")) == [Ascii("chunked")]
            && FieldValues(last, Ascii("content-length")) == []
  {
    var last := [CONNECTION_CLOSE, TRANSFER_CHUNKED];
    ForwardedTokens();
    var coding, length := Ascii("transfer-encoding"), Ascii("content-length");
    TokenField(Ascii("connection"), Ascii("close"), last, coding);
    TokenField(Ascii("connection"), Ascii("close"), last, length);
    TokenField(coding, Ascii("chunked"), last[1..], coding);
    TokenField(coding, Ascii("chunked"), last[1..], length);
    assert |coding| == 17 && |length| == 14 && |Ascii("connection")| == 10;
    assert FieldValues(last[1..][1..], length) == [] && FieldValues(last[1..][1..], coding) == [];
  }

  lemma ForwardedHeadClean(r: ProviderResponse)
    requires WellFormedResponse(r)
    ensures forall l :: l in ForwardedHeadLines(r) ==> l != [] && NoLineEnds(l)
  {
    var last := [CONNECTION_CLOSE, TRANSFER_CHUNKED];
    StatusLineClean(r.status, r.reason);
    OwnFields();
    assert forall l :: l in last ==> l != [] && NoLineEnds(l);
    ForwardedLinesClean(r.headers);
    assert ForwardedHeadLines(r) == [StatusLine(r.status, r.reason)] + (ForwardedLines(r.headers) + last);
  }

  /** Of the names the filter drops, only what the proxy adds itself is read. */
  lemma ForwardedHeadReads(r: ProviderResponse, name: seq<byte>)
    requires WellFormedResponse(r) && !ShouldForwardResponseHeader(name)
    ensures FieldValues(ForwardedHeadLines(r)[1..], name) == FieldValues([CONNECTION_CLOSE, TRANSFER_CHUNKED], name)
  {
    var last := [CONNECTION_CLOSE, TRANSFER_CHUNKED];
    ForwardedLinesRead(r.headers, last, name);
    assert ForwardedHeadLines(r)[1..] == ForwardedLines(r.headers) + last;
  }

  /**
   However the provider framed its own response, the forwarded head says "chunked" and
   nothing else: no Content-Length survives and no other Transfer-Encoding stands before it.
   */
  lemma ForwardedFraming(r: ProviderResponse)
    requires WellFormedResponse(r)
    ensures forall l :: l in ForwardedHeadLines(r) ==> l != [] && NoLineEnds(l)
    ensures FieldValues(ForwardedHeadLines(r)[1..], Ascii("transfer-encoding")) == [Ascii("chunked")]
    ensures FieldValues(ForwardedHeadLines(r)[1..], Ascii("content-length")) == []
  {
    ForwardedHeadClean(r);
    OwnFields();
    ForwardedHeadReads(r, Ascii("transfer-encoding"));
    ForwardedHeadReads(r, Ascii("content-length"));
  }

  lemma ChunkedIsLast()
    ensures IsChunkedLast([Ascii("chunked")])
  {
    var chunked := Ascii("chunked");
    LiteralIsToken("chunked");
    TokenFacts(chunked);
    assert COMMA !in chunked;
    SplitOfPart(chunked, COMMA);
    assert TrimOptionalWhitespace(chunked) == chunked;
  }

  /** A whole forwarded response that may have a body decodes to the provider's chunks put together. */
  lemma ForwardedRoundTrip(requestMethod: seq<byte>, r: ProviderResponse)
    requires WellFormedResponse(r) && MayHaveBody(requestMethod, r.status) && AllNonEmpty(r.chunks) && r.end.Ended?
    ensures DecodeMessage(requestMethod, ForwardedMessage(r)) == Whole(ForwardedHeadLines(r), Flatten(r.chunks), [])
  {
    ForwardedFraming(r);
    StatusLineReads(r.status, r.reason);
    ReadFieldsOf(ForwardedHeadLines(r), FramedBody(r.chunks, r.end));
    DecodeFrames(ForwardedHeadLines(r), r.chunks);
    ChunkedIsLast();
  }

  function ForwardedHead(r: ProviderResponse): seq<byte> {
    LinesThen(ForwardedHeadLines(r), CRLF)
  }

  /** One that may not ends at its blank line: its frames are left over. */
  lemma HeadAloneEnds(requestMethod: seq<byte>, r: ProviderResponse)
    requires WellFormedResponse(r) && !MayHaveBody(requestMethod, r.status)
    ensures DecodeMessage(requestMethod, ForwardedHead(r)) == Whole(ForwardedHeadLines(r), [], [])
    ensures ForwardedMessage(r) == ForwardedHead(r) + FramedBody(r.chunks, r.end)
  {
    ForwardedFraming(r);
    StatusLineReads(r.status, r.reason);
    ReadFieldsOf(ForwardedHeadLines(r), []);
    assert CRLF + [] == CRLF;
    LinesThenPrefix(ForwardedHeadLines(r), CRLF, FramedBody(r.chunks, r.end));
  }

  lemma {:induction false} LinesThenPrefix(lines: seq<seq<byte>>, a: seq<byte>, b: seq<byte>)
    ensures LinesThen(lines, a + b) == LinesThen(lines, a) + b
  {
    if lines != [] {
      LinesThenPrefix(lines[1..], a, b);
    }
  }

  lemma {:induction false} FramesThenPrefix(chunks: seq<seq<byte>>, a: seq<byte>, b: seq<byte>)
    ensures FramesThen(chunks, a + b) == FramesThen(chunks, a) + b
  {
    if chunks != [] {
      FramesThenPrefix(chunks[1..], a, b);
    }
  }

  /** A message cut off by a failing provider body is a proper prefix of the whole one. */
  lemma BrokenIsPrefix(r: ProviderResponse)
    requires r.end.Broken?
    ensures ForwardedMessage(r) + LAST_CHUNK == ForwardedMessage(r.(end := Ended))
  {
    FramesThenPrefix(r.chunks, [], LAST_CHUNK);
    assert [] + LAST_CHUNK == LAST_CHUNK;
    var body := FramedBody(r.chunks, Broken);
    LinesThenPrefix(ForwardedHeadLines(r), CRLF + body, LAST_CHUNK);
    assert (CRLF + body) + LAST_CHUNK == CRLF + (body + LAST_CHUNK);
  }

  /** Where a plain response ends for its recipient. */
  function PlainEnd(requestMethod: seq<byte>, status: nat, reason: seq<byte>, body: seq<byte>): seq<byte> {
    LinesThen(PlainHeadLines(status, reason, body), if MayHaveBody(requestMethod, status) then CRLF + body else CRLF)
  }

  lemma PlainEndDecodes(requestMethod: seq<byte>, status: nat, reason: seq<byte>, body: seq<byte>)
    requires 100 <= status <= 999 && NoLineEnds(reason)
    ensures DecodeMessage(requestMethod, PlainEnd(requestMethod, status, reason, body)) ==
            Whole(PlainHeadLines(status, reason, body), if MayHaveBody(requestMethod, status) then body else [], [])
  {
    var lines := PlainHeadLines(status, reason, body);
    PlainHeadClean(status, reason, body);
    PlainFraming(status, reason, body);
    StatusLineReads(status, reason);
    if MayHaveBody(requestMethod, status) {
      ReadFieldsOf(lines, body);
      PlainBodyDecodes(lines, body);
    } else {
      ReadFieldsOf(lines, []);
      assert CRLF + [] == CRLF;
    }
  }

  lemma PlainBodyDecodes(lines: seq<seq<byte>>, body: seq<byte>)
    requires lines != [] && FieldValues(lines[1..], Ascii("transfer-encoding")) == []
    requires FieldValues(lines[1..], Ascii("content-length")) == [Numeral(|body|, 10)]
    ensures DecodeBody(lines, body) == Whole(lines, body, [])
  {
    NumeralRoundTrip(|body|, 10);
    assert body[..|body|] == body && body[|body|..] == [];
  }

  /** A response that may not have a body leaves over the one it was sent with. */
  lemma PlainLeftOver(requestMethod: seq<byte>, status: nat, reason: seq<byte>, body: seq<byte>)
    ensures PlainResponse(status, reason, body) ==
            PlainEnd(requestMethod, status, reason, body) + if MayHaveBody(requestMethod, status) then [] else body
  {
    LinesThenPrefix(PlainHeadLines(status, reason, body), CRLF, body);
  }

  /** A plain response is complete with its Content-Length, or at its blank line, and at no earlier byte. */
  lemma PlainRoundTrip(requestMethod: seq<byte>, status: nat, reason: seq<byte>, body: seq<byte>, received: seq<byte>)
    requires 100 <= status <= 999 && NoLineEnds(reason) && received <= PlainResponse(status, reason, body)
    ensures var end := PlainEnd(requestMethod, status, reason, body);
            DecodeMessage(requestMethod, received).Whole? <==> end <= received
    ensures PlainEnd(requestMethod, status, reason, body) <= received ==>
              DecodeMessage(requestMethod, received) ==
              Whole(PlainHeadLines(status, reason, body), if MayHaveBody(requestMethod, status) then body else [],
                    received[|PlainEnd(requestMethod, status, reason, body)|..])
  {
    var end := PlainEnd(requestMethod, status, reason, body);
    PlainEndDecodes(requestMethod, status, reason, body);
    PlainLeftOver(requestMethod, status, reason, body);
    CompleteFrom(requestMethod, end, received, PlainResponse(status, reason, body));
  }

  lemma PlainHeadClean(status: nat, reason: seq<byte>, body: seq<byte>)
    requires NoLineEnds(reason)
    ensures forall l :: l in PlainHeadLines(status, reason, body) ==> l != [] && NoLineEnds(l)
  {
    StatusLineClean(status, reason);
    PlainFieldsClean(|body|);
  }

  lemma PlainFraming(status: nat, reason: seq<byte>, body: seq<byte>)
    ensures var lines := PlainHeadLines(status, reason, body);
            && FieldValues(lines[1..], Ascii("transfer-encoding")) == []
            && FieldValues(lines[1..], Ascii("content-length")) == [Numeral(|body|, 10)]
  {
    PlainCodingsRead(|body|);
    PlainLengthsRead(|body|);
    assert PlainHeadLines(status, reason, body)[1..] == PlainFieldLines(|body|);
  }

  lemma PlainFieldsClean(n: nat)
    ensures forall l :: l in PlainFieldLines(n) ==> l != [] && NoLineEnds(l)
  {
    NumeralIsToken(n, 10);
    ForwardedTokens();
    PlainTokens();
    var fields := PlainFieldLines(n);
    TokenField(Ascii("content-type"), Ascii("text/plain"), fields, []);
    TokenField(Ascii("connection"), Ascii("close"), fields[1..], []);
    TokenField(Ascii("content-length"), Numeral(n, 10), fields[1..][1..], []);
  }

  lemma PlainCodingsRead(n: nat)
    ensures FieldValues(PlainFieldLines(n), Ascii("transfer-encoding")) == []
  {
    PlainFieldsRead(n, Ascii("transfer-encoding"));
    assert |Ascii("transfer-encoding")| == 17 && |Ascii("content-length")| == 14;
    assert |Ascii("connection")| == 10 && |Ascii("content-type")| == 12;
  }

  lemma PlainLengthsRead(n: nat)
    ensures FieldValues(PlainFieldLines(n), Ascii("content-length")) == [Numeral(n, 10)]
  {
    PlainFieldsRead(n, Ascii("content-length"));
    assert |Ascii("connection")| == 10 && |Ascii("content-type")| == 12 && |Ascii("content-length")| == 14;
  }

  /** How the fields of a plain response read. */
  lemma PlainFieldsRead(n: nat, wanted: seq<byte>)
    ensures wanted != Ascii("content-type") && wanted != Ascii("connection") ==>
              FieldValues(PlainFieldLines(n), wanted) ==
              if wanted == Ascii("content-length") then [Numeral(n, 10)] else []
  {
    var fields := PlainFieldLines(n);
    NumeralIsToken(n, 10);
    ForwardedTokens();
    PlainTokens();
    TokenField(Ascii("content-type"), Ascii("text/plain"), fields, wanted);
    TokenField(Ascii("connection"), Ascii("close"), fields[1..], wanted);
    TokenField(Ascii("content-length"), Numeral(n, 10), fields[1..][1..], wanted);
    assert FieldValues(fields[1..][1..][1..], wanted) == [];
  }

  lemma NumeralIsToken(n: nat, base: Base)
    ensures IsLowerToken(Numeral(n, base))
    decreases n
  {
    if n >= base {
      NumeralIsToken(n / base, base);
    }
  }

  // -------------------------------------------------------------- the empty chunk

  lemma FrameExtends(chunk: seq<byte>, a: seq<byte>, b: seq<byte>)
    ensures (Numeral(|chunk|, 16) + CRLF) + (chunk + (CRLF + (a + b))) ==
            ((Numeral(|chunk|, 16) + CRLF) + (chunk + (CRLF + a))) + b
  {
    Regroup(CRLF, a, b);
    Regroup(chunk, CRLF + a, b);
    Regroup(Numeral(|chunk|, 16) + CRLF, chunk + (CRLF + a), b);
  }

  /** An empty chunk is written exactly like the end of the body. */
  lemma {:induction false} EmptyChunkEndsFrames(chunks: seq<seq<byte>>, i: nat, tail: seq<byte>)
    requires i < |chunks| && chunks[i] == []
    ensures FramesThen(chunks, tail) == FramesThen(chunks[..i], LAST_CHUNK) + FramesThen(chunks[i + 1..], tail)
  {
    var later := FramesThen(chunks[i + 1..], tail);
    if i == 0 {
      EmptyFrame(later);
      assert chunks[..0] == [];
    } else {
      EmptyChunkEndsFrames(chunks[1..], i - 1, tail);
      assert chunks[1..][..i - 1] == chunks[..i][1..] && chunks[1..][i..] == chunks[i + 1..];
      FrameExtends(chunks[0], FramesThen(chunks[..i][1..], LAST_CHUNK), later);
    }
  }

  lemma EmptyFrame(later: seq<byte>)
    ensures (Numeral(0, 16) + CRLF) + ([] + (CRLF + later)) == LAST_CHUNK + later
  {
    assert Numeral(0, 16) == [48];
  }

  // ------------------------------------------------ where a forwarded response ends

  /** The chunks before the first empty one; all of them if there is none. */
  function BeforeEmpty(chunks: seq<seq<byte>>): (before: seq<seq<byte>>)
    ensures before <= chunks && AllNonEmpty(before)
    ensures before == chunks <==> AllNonEmpty(chunks)
    ensures |before| < |chunks| ==> chunks[|before|] == []
  {
    if chunks == [] || chunks[0] == [] then [] else [chunks[0]] + BeforeEmpty(chunks[1..])
  }

  /**
   The shortest prefix of a forwarded message that its recipient takes for complete, if there
   is one: the head of a response without a body, else everything through the first empty
   chunk or the end of the provider's body.
   */
  function FirstEnd(requestMethod: seq<byte>, r: ProviderResponse): Option<seq<byte>>
  {
    if !MayHaveBody(requestMethod, r.status) then Some(ForwardedHead(r))
    else if BeforeEmpty(r.chunks) != r.chunks || r.end.Ended? then
      Some(ForwardedMessage(r.(chunks := BeforeEmpty(r.chunks), end := Ended)))
    else None
  }

  lemma EmptyChunkEndsMessage(r: ProviderResponse)
    requires !AllNonEmpty(r.chunks)
    ensures var i := |BeforeEmpty(r.chunks)|;
            i < |r.chunks| && ForwardedMessage(r) ==
            ForwardedMessage(r.(chunks := r.chunks[..i], end := Ended)) + FramedBody(r.chunks[i + 1..], r.end)
  {
    var i := |BeforeEmpty(r.chunks)|;
    var tail := if r.end.Ended? then LAST_CHUNK else [];
    var later := FramedBody(r.chunks[i + 1..], r.end);
    EmptyChunkEndsFrames(r.chunks, i, tail);
    var early := FramedBody(r.chunks[..i], Ended);
    LinesThenPrefix(ForwardedHeadLines(r), CRLF + early, later);
    Regroup(CRLF, early, later);
  }

  lemma FirstEndDecodes(requestMethod: seq<byte>, r: ProviderResponse)
    requires WellFormedResponse(r) && FirstEnd(requestMethod, r).Some?
    ensures var end := FirstEnd(requestMethod, r).value;
            && end <= ForwardedMessage(r)
            && DecodeMessage(requestMethod, end) ==
               Whole(ForwardedHeadLines(r),
                     if MayHaveBody(requestMethod, r.status) then Flatten(BeforeEmpty(r.chunks)) else [], [])
  {
    if !MayHaveBody(requestMethod, r.status) {
      HeadAloneEnds(requestMethod, r);
    } else {
      var i := |BeforeEmpty(r.chunks)|;
      assert BeforeEmpty(r.chunks) == r.chunks[..i];
      ForwardedRoundTrip(requestMethod, r.(chunks := BeforeEmpty(r.chunks), end := Ended));
      if !AllNonEmpty(r.chunks) {
        EmptyChunkEndsMessage(r);
      }
    }
  }

  /**
   What a recipient makes of everything it can be left with: it is complete exactly if it
   holds the first end, its body is the chunks up to there, the rest is left over.
   */
  lemma ReceivedMeaning(requestMethod: seq<byte>, r: ProviderResponse, received: seq<byte>)
    requires WellFormedResponse(r) && received <= ForwardedMessage(r)
    ensures var end := FirstEnd(requestMethod, r);
            && (DecodeMessage(requestMethod, received).Whole? <==> end.Some? && end.value <= received)
            && (end.Some? && end.value <= received ==>
                  DecodeMessage(requestMethod, received) ==
                  Whole(ForwardedHeadLines(r),
                        if MayHaveBody(requestMethod, r.status) then Flatten(BeforeEmpty(r.chunks)) else [],
                        received[|end.value|..]))
  {
    if FirstEnd(requestMethod, r).Some? {
      FirstEndDecodes(requestMethod, r);
      CompleteFrom(requestMethod, FirstEnd(requestMethod, r).value, received, ForwardedMessage(r));
    } else {
      var whole := r.(end := Ended);
      ForwardedRoundTrip(requestMethod, whole);
      BrokenIsPrefix(r);
      NoEarlierEnd(requestMethod, ForwardedMessage(whole), received);
    }
  }

  /** Nothing a recipient takes for complete is less than the whole message of a body that ended. */
  ghost predicate TruncationShows(requestMethod: seq<byte>, r: ProviderResponse) {
    forall received :: received <= ForwardedMessage(r) && DecodeMessage(requestMethod, received).Whole? ==>
                         r.end.Ended? && received == ForwardedMessage(r)
  }

  lemma FramesNotEmpty(chunks: seq<seq<byte>>)
    ensures FramesThen(chunks, LAST_CHUNK) != []
  {
  }

  /** Truncation is always detectable if and only if the response may have a body and no chunk is empty. */
  lemma TruncationShowsIff(requestMethod: seq<byte>, r: ProviderResponse)
    requires WellFormedResponse(r)
    ensures TruncationShows(requestMethod, r) <==> MayHaveBody(requestMethod, r.status) && AllNonEmpty(r.chunks)
  {
    if MayHaveBody(requestMethod, r.status) && AllNonEmpty(r.chunks) {
      forall received | received <= ForwardedMessage(r) && DecodeMessage(requestMethod, received).Whole?
        ensures r.end.Ended? && received == ForwardedMessage(r)
      {
        ReceivedMeaning(requestMethod, r, received);
      }
    } else {
      FirstEndDecodes(requestMethod, r);
      FirstEndIsEarly(requestMethod, r);
    }
  }

  lemma FirstEndIsEarly(requestMethod: seq<byte>, r: ProviderResponse)
    requires WellFormedResponse(r) && (!MayHaveBody(requestMethod, r.status) || !AllNonEmpty(r.chunks))
    ensures FirstEnd(requestMethod, r).Some?
    ensures r.end.Broken? || FirstEnd(requestMethod, r).value != ForwardedMessage(r)
  {
    if r.end.Ended? {
      if MayHaveBody(requestMethod, r.status) {
        EmptyChunkEndsMessage(r);
        assert BeforeEmpty(r.chunks) == r.chunks[..|BeforeEmpty(r.chunks)|];
        FramesNotEmpty(r.chunks[|BeforeEmpty(r.chunks)| + 1..]);
      } else {
        HeadAloneEnds(requestMethod, r);
        FramesNotEmpty(r.chunks);
      }
    }
  }

  /** Where truncation shows: exactly the whole message of a body that ended is complete, and it is that body. */
  lemma TruncationDetected(requestMethod: seq<byte>, r: ProviderResponse, received: seq<byte>)
    requires WellFormedResponse(r) && TruncationShows(requestMethod, r) && received <= ForwardedMessage(r)
    ensures DecodeMessage(requestMethod, received).Whole? <==> r.end.Ended? && received == ForwardedMessage(r)
    ensures DecodeMessage(requestMethod, received).Whole? ==>
              DecodeMessage(requestMethod, received).body == Flatten(r.chunks)
  {
    TruncationShowsIff(requestMethod, r);
    ReceivedMeaning(requestMethod, r, received);
  }

  const NO_CONTENT: ProviderResponse := ProviderResponse(204, Ascii("No Content"), [], [], Ended)

  /**
   An answer 204 is forwarded with a last chunk although it cannot have a body: its head is
   complete alone, and the last chunk is left over, as if it began another response.
   */
  lemma NoContentEndsEarly(requestMethod: seq<byte>)
    ensures DecodeMessage(requestMethod, ForwardedHead(NO_CONTENT)) == Whole(ForwardedHeadLines(NO_CONTENT), [], [])
    ensures DecodeMessage(requestMethod, ForwardedMessage(NO_CONTENT)) ==
            Whole(ForwardedHeadLines(NO_CONTENT), [], LAST_CHUNK)
    ensures ForwardedHead(NO_CONTENT) < ForwardedMessage(NO_CONTENT) && !TruncationShows(requestMethod, NO_CONTENT)
  {
    NoContentIsClean();
    HeadAloneEnds(requestMethod, NO_CONTENT);
    DecodeMessageStable(requestMethod, ForwardedHead(NO_CONTENT), LAST_CHUNK);
    assert [] + LAST_CHUNK == LAST_CHUNK;
    TruncationShowsIff(requestMethod, NO_CONTENT);
  }

  lemma NoContentIsClean()
    ensures WellFormedResponse(NO_CONTENT)
  {
    var text := "No Content";
    assert NO_CONTENT.reason == Ascii(text);
    assert forall i :: 0 <= i < |text| ==> ' ' <= text[i] <= 'z';
  }

  /** So it is for every answer to HEAD: a provider that sends no body still gets a last chunk. */
  lemma AnswersToHeadEndEarly(r: ProviderResponse)
    requires WellFormedResponse(r)
    ensures DecodeMessage(Ascii("HEAD"), ForwardedMessage(r)) ==
            Whole(ForwardedHeadLines(r), [], FramedBody(r.chunks, r.end))
    ensures !TruncationShows(Ascii("HEAD"), r)
  {
    HeadAloneEnds(Ascii("HEAD"), r);
    DecodeMessageStable(Ascii("HEAD"), ForwardedHead(r), FramedBody(r.chunks, r.end));
    assert [] + FramedBody(r.chunks, r.end) == FramedBody(r.chunks, r.end);
    TruncationShowsIff(Ascii("HEAD"), r);
  }
}

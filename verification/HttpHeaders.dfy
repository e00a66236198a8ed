/**
 Turning the bytes of a head into a parsed request: the checks around the external head
 parser and the fold over its headers that finds the body length and the chunked flag.
 */
module HttpHeaders {
  import opened Bytes
  import opened HttpHead

  const MAX_BODY_BYTES: nat := 1024 * 1024

  datatype Header = Header(name: seq<byte>, value: seq<byte>)

  /** What the external head parser reports; it allows at most 100 headers. */
  datatype RawHead =
    | TooManyHeaders
    | Malformed
    | Partial
    | Parsed(method_: Option<seq<byte>>, path: Option<seq<byte>>, version: Option<nat>, headers: seq<Header>)

  /**
   The decisions made by the HTTP libraries, each a fixed function of its bytes: parsing a
   head, accepting a method, normalising a header name, accepting a header value, reading a
   value as text, and reading text as an unsigned number.
   */
  datatype Grammar = Grammar(
    parse: seq<byte> -> RawHead,
    methodOk: seq<byte> -> bool,
    headerName: seq<byte> -> Option<seq<byte>>,
    valueOk: seq<byte> -> bool,
    isText: seq<byte> -> bool,
    number: seq<byte> -> Option<nat>)

  datatype ParsedHead = ParsedHead(
    method_: seq<byte>,
    target: seq<byte>,
    headers: seq<Header>,
    contentLength: Option<nat>,
    hasChunkedBody: bool)

  // ------------------------------------------------------------ whitespace and lists

  predicate IsOptionalWhitespace(b: byte) {
    b == SPACE || b == TAB
  }

  function TrimStart(value: seq<byte>): seq<byte> {
    if value != [] && IsOptionalWhitespace(value[0]) then TrimStart(value[1..]) else value
  }

  function TrimEnd(value: seq<byte>): seq<byte> {
    if value != [] && IsOptionalWhitespace(value[|value| - 1]) then TrimEnd(value[..|value| - 1]) else value
  }

  function TrimOptionalWhitespace(value: seq<byte>): seq<byte> {
    TrimEnd(TrimStart(value))
  }

  ghost predicate AllWhitespace(value: seq<byte>) {
    forall i :: 0 <= i < |value| ==> IsOptionalWhitespace(value[i])
  }

  /** Trimming cuts whitespace off both ends and leaves none there. */
  lemma {:induction false} TrimMeaning(value: seq<byte>) returns (before: seq<byte>, after: seq<byte>)
    ensures var trimmed := TrimOptionalWhitespace(value);
            && value == before + trimmed + after
            && AllWhitespace(before) && AllWhitespace(after)
            && (trimmed != [] ==> !IsOptionalWhitespace(trimmed[0]) && !IsOptionalWhitespace(trimmed[|trimmed| - 1]))
    decreases |value|
  {
    if value != [] && IsOptionalWhitespace(value[0]) {
      var rest;
      rest, after := TrimMeaning(value[1..]);
      before := [value[0]] + rest;
    } else {
      before := [];
      after := TrimEndMeaning(value);
      assert TrimStart(value) == value;
    }
  }

  lemma {:induction false} TrimEndMeaning(value: seq<byte>) returns (after: seq<byte>)
    ensures value == TrimEnd(value) + after && AllWhitespace(after)
    ensures TrimEnd(value) != [] ==> !IsOptionalWhitespace(TrimEnd(value)[|TrimEnd(value)| - 1])
    decreases |value|
  {
    if value != [] && IsOptionalWhitespace(value[|value| - 1]) {
      var rest := TrimEndMeaning(value[..|value| - 1]);
      after := rest + [value[|value| - 1]];
      assert value == value[..|value| - 1] + [value[|value| - 1]];
    } else {
      after := [];
    }
  }

  const COMMA: byte := 44

  lemma ListDelimiters()
    ensures [COMMA, SPACE, TAB] == Ascii(", \t")
  {
    var text := Ascii(", \t");
    assert |text| == 3 && text[0] == 44 && text[1] == 32 && text[2] == 9;
    assert text == [COMMA, SPACE, TAB];
  }

  /** Some comma-separated coding is "chunked", whatever its case and surrounding blanks. */
  predicate NamesChunked(value: seq<byte>) {
    exists coding <- Split(value, COMMA) :: LowerAll(TrimOptionalWhitespace(coding)) == Ascii("chunked")
  }

  /** The bytes from `i` to `j` stand between two commas or ends of the value. */
  ghost predicate IsListItem(value: seq<byte>, i: nat, j: nat) {
    && i <= j <= |value| && COMMA !in value[i..j]
    && (i == 0 || value[i - 1] == COMMA) && (j == |value| || value[j] == COMMA)
  }

  lemma {:induction false} ItemsAreParts(value: seq<byte>, i: nat, j: nat)
    requires IsListItem(value, i, j)
    ensures value[i..j] in Split(value, COMMA)
  {
    var item := value[i..j];
    SplitOfPart(item, COMMA);
    if j < |value| {
      SplitConcat(item, value[j + 1..], COMMA);
      assert value[i..] == item + ([COMMA] + value[j + 1..]);
    } else {
      assert value[i..] == item;
    }
    if i > 0 {
      SplitConcat(value[..i - 1], value[i..], COMMA);
      assert value == value[..i - 1] + ([COMMA] + value[i..]);
    } else {
      assert value[i..] == value;
    }
  }

  lemma FirstItem(value: seq<byte>) returns (n: nat)
    ensures IsListItem(value, 0, n) && Split(value, COMMA)[0] == value[0..n]
    ensures if n == |value| then |Split(value, COMMA)| == 1
            else value[n] == COMMA && Split(value, COMMA)[1..] == Split(value[n + 1..], COMMA)
  {
    SplitFirst(value, COMMA);
    n := |UpTo(value, COMMA)|;
    assert value[..n] == value[0..n];
  }

  lemma {:induction false} PartsAreItems(value: seq<byte>, k: nat) returns (i: nat, j: nat)
    requires k < |Split(value, COMMA)|
    ensures IsListItem(value, i, j) && value[i..j] == Split(value, COMMA)[k]
    decreases k
  {
    var n := FirstItem(value);
    if k == 0 {
      i, j := 0, n;
    } else {
      i, j := PartsAreItems(value[n + 1..], k - 1);
      ItemOfTail(value, n + 1, i, j);
      i, j := n + 1 + i, n + 1 + j;
    }
  }

  lemma ItemOfTail(value: seq<byte>, n: nat, i: nat, j: nat)
    requires 0 < n <= |value| && value[n - 1] == COMMA && IsListItem(value[n..], i, j)
    ensures IsListItem(value, n + i, n + j) && value[n + i..n + j] == value[n..][i..j]
  {
    assert value[n + i..n + j] == value[n..][i..j];
    assert i > 0 ==> value[n..][i - 1] == value[n + i - 1];
    assert j < |value[n..]| ==> value[n..][j] == value[n + j];
  }

  /** The value lists the coding "chunked": in some item, in letters of either case, with blanks around it. */
  lemma NamesChunkedMeaning(value: seq<byte>)
    ensures NamesChunked(value) <==>
            exists i: nat, j: nat {:trigger IsListItem(value, i, j)} :: IsListItem(value, i, j)
              && LowerAll(TrimOptionalWhitespace(value[i..j])) == Ascii("chunked")
  {
    if NamesChunked(value) {
      var k :| 0 <= k < |Split(value, COMMA)|
               && LowerAll(TrimOptionalWhitespace(Split(value, COMMA)[k])) == Ascii("chunked");
      var i, j := PartsAreItems(value, k);
    }
    if i: nat, j: nat :| IsListItem(value, i, j)
                        && LowerAll(TrimOptionalWhitespace(value[i..j])) == Ascii("chunked") {
      ItemsAreParts(value, i, j);
    }
  }

  // -------------------------------------------------------------------- header fold

  /** What one header means to the fold. */
  datatype Verdict = Length(n: nat) | Coding(chunked: bool) | Other

  function Judge(g: Grammar, header: Header): Result<(Header, Verdict), HttpRequestError>
  {
    var name := g.headerName(header.name);
    var value := TrimOptionalWhitespace(header.value);
    if name.None? || !g.valueOk(value) then Err(BadRequest)
    else
      var kept := Header(name.value, value);
      if name.value == Ascii("content-length") then
        if !g.isText(value) || g.number(value).None? then Err(BadRequest)
        else if g.number(value).value > MAX_BODY_BYTES then Err(PayloadTooLarge)
        else Ok((kept, Length(g.number(value).value)))
      else if name.value == Ascii("transfer-encoding") then
        if !g.isText(value) then Err(BadRequest) else Ok((kept, Coding(NamesChunked(value))))
      else Ok((kept, Other))
  }

  /** The headers kept so far, the length found and the chunked flag. */
  datatype Fold = Fold(headers: seq<Header>, contentLength: Option<nat>, hasChunkedBody: bool)

  const EMPTY_FOLD := Fold([], None, false)

  function Absorb(g: Grammar, fold: Fold, header: Header): Result<Fold, HttpRequestError>
  {
    match Judge(g, header)
    case Err(e) => Err(e)
    case Ok((kept, verdict)) =>
      var headers := fold.headers + [kept];
      match verdict
      case Other => Ok(fold.(headers := headers))
      case Coding(chunked) => Ok(fold.(headers := headers, hasChunkedBody := chunked))
      case Length(n) =>
        if fold.contentLength.Some? && fold.contentLength.value != n then Err(BadRequest)
        else Ok(fold.(headers := headers, contentLength := Some(n)))
  }

  /** Absorbing the headers from left to right, stopping at the first failure. */
  function FoldHeaders(g: Grammar, headers: seq<Header>): Result<Fold, HttpRequestError>
  {
    if headers == [] then Ok(EMPTY_FOLD)
    else
      match FoldHeaders(g, headers[..|headers| - 1])
      case Err(e) => Err(e)
      case Ok(fold) => Absorb(g, fold, headers[|headers| - 1])
  }

  function ParseOutcome(g: Grammar, head: seq<byte>): Result<ParsedHead, HttpRequestError>
  {
    match g.parse(head)
    case TooManyHeaders => Err(HeadersTooLarge)
    case Malformed => Err(BadRequest)
    case Partial => Err(BadRequest)
    case Parsed(method_, path, version, headers) =>
      if method_.None? || !g.methodOk(method_.value) || path.None? || version.None? then Err(BadRequest)
      else if version.value > 1 || !IsOriginForm(path.value) then Err(BadRequest)
      else
        match FoldHeaders(g, headers)
        case Err(e) => Err(e)
        case Ok(fold) =>
          Ok(ParsedHead(method_.value, path.value, fold.headers, fold.contentLength, fold.hasChunkedBody))
  }

  /** Starts with exactly one slash. */
  predicate IsOriginForm(target: seq<byte>) {
    target != [] && target[0] == SLASH && !(|target| > 1 && target[1] == SLASH)
  }

  lemma FoldOneMore(g: Grammar, headers: seq<Header>, i: nat)
    requires i < |headers| && FoldHeaders(g, headers[..i]).Ok?
    ensures FoldHeaders(g, headers[..i + 1]) == Absorb(g, FoldHeaders(g, headers[..i]).value, headers[i])
  {
    assert headers[..i + 1][..i] == headers[..i];
  }

  method ParseHttpHead(g: Grammar, head: seq<byte>) returns (parsed: Result<ParsedHead, HttpRequestError>)
    ensures parsed == ParseOutcome(g, head)
  {
    var raw := g.parse(head);
    if raw.TooManyHeaders? {
      return Err(HeadersTooLarge);
    }
    if !raw.Parsed? || raw.method_.None? || !g.methodOk(raw.method_.value) {
      return Err(BadRequest);
    }
    if raw.path.None? || raw.version.None? || raw.version.value > 1 || !IsOriginForm(raw.path.value) {
      return Err(BadRequest);
    }
    var headers: seq<Header> := [];
    var contentLength: Option<nat> := None;
    var hasChunkedBody := false;
    for i := 0 to |raw.headers|
      invariant FoldHeaders(g, raw.headers[..i]) == Ok(Fold(headers, contentLength, hasChunkedBody))
    {
      FoldOneMore(g, raw.headers, i);
      var judged := Judge(g, raw.headers[i]);
      if judged.Err? {
        FoldFailsEarly(g, raw.headers, i + 1);
        return Err(judged.error);
      }
      var (kept, verdict) := judged.value;
      match verdict {
        case Length(n) =>
          if contentLength.Some? && contentLength.value != n {
            FoldFailsEarly(g, raw.headers, i + 1);
            return Err(BadRequest);
          }
          contentLength := Some(n);
        case Coding(chunked) =>
          hasChunkedBody := chunked;
        case Other =>
      }
      headers := headers + [kept];
    }
    assert raw.headers[..|raw.headers|] == raw.headers;
    return Ok(ParsedHead(raw.method_.value, raw.path.value, headers, contentLength, hasChunkedBody));
  }

  lemma {:induction false} FoldFailsEarly(g: Grammar, headers: seq<Header>, n: nat)
    requires n <= |headers| && FoldHeaders(g, headers[..n]).Err?
    ensures FoldHeaders(g, headers) == FoldHeaders(g, headers[..n])
    decreases |headers|
  {
    if n < |headers| {
      var shorter := headers[..|headers| - 1];
      assert shorter[..n] == headers[..n];
      FoldFailsEarly(g, shorter, n);
    } else {
      assert headers[..n] == headers;
    }
  }

  /** A head is never refused for announcing chunks. */
  lemma {:induction false} FoldErrors(g: Grammar, headers: seq<Header>)
    ensures FoldHeaders(g, headers).Err? ==> FoldHeaders(g, headers).error in {BadRequest, PayloadTooLarge}
  {
    if headers != [] {
      FoldErrors(g, headers[..|headers| - 1]);
    }
  }

  // --------------------------------------------------- what the fold decides, as a whole

  ghost predicate EachValid(g: Grammar, headers: seq<Header>) {
    forall h :: h in headers ==> Judge(g, h).Ok?
  }

  /** `h` is a valid Content-Length header of `n` bytes. */
  ghost predicate Announces(g: Grammar, h: Header, n: nat) {
    Judge(g, h).Ok? && Judge(g, h).value.1 == Length(n)
  }

  ghost predicate AgreesOnLength(g: Grammar, headers: seq<Header>, length: Option<nat>) {
    && (length.Some? ==> length.value <= MAX_BODY_BYTES && exists h :: h in headers && Announces(g, h, length.value))
    && forall h, n: nat :: h in headers && Announces(g, h, n) ==> length == Some(n)
  }

  /** The verdict of the last Transfer-Encoding header; not chunked if there is none. */
  function LastCoding(g: Grammar, headers: seq<Header>): bool
  {
    if headers == [] then false
    else
      match Judge(g, headers[|headers| - 1])
      case Ok((_, Coding(chunked))) => chunked
      case _ => LastCoding(g, headers[..|headers| - 1])
  }

  /** A successful fold keeps every header in order; the last Transfer-Encoding alone decides chunking. */
  lemma {:induction false} FoldKeepsHeaders(g: Grammar, headers: seq<Header>)
    requires FoldHeaders(g, headers).Ok?
    ensures var fold := FoldHeaders(g, headers).value;
            && fold.hasChunkedBody == LastCoding(g, headers)
            && |fold.headers| == |headers|
            && forall i :: 0 <= i < |headers| ==>
                      Judge(g, headers[i]).Ok? && fold.headers[i] == Judge(g, headers[i]).value.0
    decreases |headers|
  {
    if headers != [] {
      var front, fold := headers[..|headers| - 1], FoldHeaders(g, headers).value;
      FoldKeepsHeaders(g, front);
      assert fold.headers == FoldHeaders(g, front).value.headers + [Judge(g, headers[|headers| - 1]).value.0];
    }
  }

  /**
   The fold accepts exactly when every header is valid on its own and all Content-Length
   headers give one number within the body limit, which it then reports.
   */
  lemma {:induction false} FoldMeaning(g: Grammar, headers: seq<Header>)
    ensures FoldHeaders(g, headers).Ok? <==>
            EachValid(g, headers) && exists length :: AgreesOnLength(g, headers, length)
    ensures FoldHeaders(g, headers).Ok? ==>
            AgreesOnLength(g, headers, FoldHeaders(g, headers).value.contentLength)
    decreases |headers|
  {
    if headers == [] {
      assert AgreesOnLength(g, headers, None);
    } else {
      var front, last := headers[..|headers| - 1], headers[|headers| - 1];
      assert headers == front + [last];
      FoldMeaning(g, front);
      ValidityGrows(g, front, last);
      if FoldHeaders(g, front).Ok? && Judge(g, last).Ok? {
        AgreementGrows(g, front, last, FoldHeaders(g, front).value.contentLength);
      } else if length :| AgreesOnLength(g, headers, length) {
        AgreementNarrows(g, front, last, length);
      }
    }
  }

  lemma ValidityGrows(g: Grammar, front: seq<Header>, last: Header)
    ensures EachValid(g, front + [last]) <==> EachValid(g, front) && Judge(g, last).Ok?
  {
    assert forall h :: h in front + [last] <==> h in front || h == last;
  }

  lemma AgreementGrows(g: Grammar, front: seq<Header>, last: Header, before: Option<nat>)
    requires AgreesOnLength(g, front, before) && Judge(g, last).Ok?
    ensures var verdict := Judge(g, last).value.1;
            if !verdict.Length? then AgreesOnLength(g, front + [last], before)
            else if before.None? || before.value == verdict.n then AgreesOnLength(g, front + [last], Some(verdict.n))
            else forall length :: !AgreesOnLength(g, front + [last], length)
  {
    var headers, verdict := front + [last], Judge(g, last).value.1;
    assert forall h :: h in headers <==> h in front || h == last;
    if verdict.Length? {
      assert Announces(g, last, verdict.n);
    }
  }

  lemma AgreementNarrows(g: Grammar, front: seq<Header>, last: Header, length: Option<nat>)
    requires AgreesOnLength(g, front + [last], length)
    ensures exists shorter :: AgreesOnLength(g, front, shorter)
  {
    assert forall h :: h in front + [last] <==> h in front || h == last;
    if h, n: nat :| h in front && Announces(g, h, n) {
      assert AgreesOnLength(g, front, length);
    } else {
      assert AgreesOnLength(g, front, None);
    }
  }

  /** Acceptance and the body length do not depend on the order of the headers. */
  lemma FoldIgnoresOrder(g: Grammar, headers: seq<Header>, reordered: seq<Header>)
    requires multiset(headers) == multiset(reordered)
    ensures FoldHeaders(g, headers).Ok? <==> FoldHeaders(g, reordered).Ok?
    ensures FoldHeaders(g, headers).Ok? ==>
            FoldHeaders(g, headers).value.contentLength == FoldHeaders(g, reordered).value.contentLength
  {
    forall h ensures h in headers <==> h in reordered {
      assert h in headers <==> h in multiset(headers);
      assert h in reordered <==> h in multiset(reordered);
    }
    FoldMeaning(g, headers);
    FoldMeaning(g, reordered);
    if length :| AgreesOnLength(g, headers, length) {
      assert AgreesOnLength(g, reordered, length);
    }
    if length :| AgreesOnLength(g, reordered, length) {
      assert AgreesOnLength(g, headers, length);
    }
  }

  /** The chunked flag does depend on it: of two Transfer-Encoding headers the later one wins. */
  lemma LaterCodingWins(g: Grammar, chunked: Header, plain: Header)
    requires Judge(g, chunked).Ok? && Judge(g, chunked).value.1 == Coding(true)
    requires Judge(g, plain).Ok? && Judge(g, plain).value.1 == Coding(false)
    ensures FoldHeaders(g, [plain, chunked]).Ok? && FoldHeaders(g, [plain, chunked]).value.hasChunkedBody
    ensures FoldHeaders(g, [chunked, plain]).Ok? && !FoldHeaders(g, [chunked, plain]).value.hasChunkedBody
  {
    assert [plain, chunked][..1] == [plain] && [chunked, plain][..1] == [chunked];
    assert [plain][..0] == [] && [chunked][..0] == [];
    assert FoldHeaders(g, [plain]) == Absorb(g, EMPTY_FOLD, plain);
    assert FoldHeaders(g, [chunked]) == Absorb(g, EMPTY_FOLD, chunked);
  }

  // ------------------------------------------------------- what a head says, field by field

  ghost predicate IsNamed(g: Grammar, h: Header, name: string) {
    g.headerName(h.name) == Some(Ascii(name))
  }

  /** Name and value are accepted; a length is a number, and both a length and a coding are text. */
  ghost predicate IsValidHeader(g: Grammar, h: Header)
  {
    var value := TrimOptionalWhitespace(h.value);
    && g.headerName(h.name).Some? && g.valueOk(value)
    && (IsNamed(g, h, "content-length") ==> g.isText(value) && g.number(value).Some?)
    && (IsNamed(g, h, "transfer-encoding") ==> g.isText(value))
  }

  ghost predicate SaysLength(g: Grammar, h: Header, n: nat) {
    IsNamed(g, h, "content-length") && g.number(TrimOptionalWhitespace(h.value)) == Some(n)
  }

  lemma JudgeMeaning(g: Grammar, h: Header)
    ensures Judge(g, h).Ok? <==> IsValidHeader(g, h) && forall n: nat :: SaysLength(g, h, n) ==> n <= MAX_BODY_BYTES
    ensures Judge(g, h) == Err(PayloadTooLarge) <==>
            IsValidHeader(g, h) && exists n: nat :: SaysLength(g, h, n) && n > MAX_BODY_BYTES
    ensures Judge(g, h).Ok? ==>
            var (kept, verdict) := Judge(g, h).value;
            && g.headerName(h.name) == Some(kept.name) && kept.value == TrimOptionalWhitespace(h.value)
            && (forall n: nat :: verdict == Length(n) <==> SaysLength(g, h, n))
            && (verdict.Coding? <==> IsNamed(g, h, "transfer-encoding"))
            && (verdict.Coding? ==> verdict.chunked == NamesChunked(kept.value))
  {
    NamesDiffer();
    var value := TrimOptionalWhitespace(h.value);
    if IsValidHeader(g, h) && IsNamed(g, h, "content-length") {
      assert SaysLength(g, h, g.number(value).value);
    }
  }

  lemma NamesDiffer()
    ensures Ascii("content-length") != Ascii("transfer-encoding")
  {
    assert |Ascii("content-length")| != |Ascii("transfer-encoding")|;
  }

  /** Some header says that length. */
  ghost predicate Says(g: Grammar, headers: seq<Header>, n: nat) {
    exists h :: h in headers && SaysLength(g, h, n)
  }

  /** Each header is valid, no length is over the limit, and all lengths agree. */
  ghost predicate AcceptableHeaders(g: Grammar, headers: seq<Header>)
  {
    && (forall h :: h in headers ==> IsValidHeader(g, h))
    && (forall n: nat :: Says(g, headers, n) ==> n <= MAX_BODY_BYTES)
    && (forall n: nat, m: nat :: Says(g, headers, n) && Says(g, headers, m) ==> n == m)
  }

  lemma AnnouncedIsSaid(g: Grammar, headers: seq<Header>, n: nat)
    requires EachValid(g, headers)
    ensures Says(g, headers, n) <==> exists h :: h in headers && Announces(g, h, n)
    ensures Says(g, headers, n) ==> n <= MAX_BODY_BYTES
  {
    forall h | h in headers ensures Announces(g, h, n) <==> SaysLength(g, h, n) {
      JudgeMeaning(g, h);
    }
    if h :| h in headers && SaysLength(g, h, n) {
      JudgeMeaning(g, h);
    }
  }

  lemma LengthsAgree(g: Grammar, headers: seq<Header>, length: Option<nat>)
    requires EachValid(g, headers)
    ensures AgreesOnLength(g, headers, length) <==> forall n: nat :: length == Some(n) <==> Says(g, headers, n)
  {
    forall n: nat ensures Says(g, headers, n) <==> exists h :: h in headers && Announces(g, h, n) {
      AnnouncedIsSaid(g, headers, n);
    }
    if forall n: nat :: length == Some(n) <==> Says(g, headers, n) {
      if length.Some? {
        AnnouncedIsSaid(g, headers, length.value);
      }
    }
  }

  lemma EachIsValid(g: Grammar, headers: seq<Header>)
    ensures EachValid(g, headers) <==>
            (forall h :: h in headers ==> IsValidHeader(g, h))
            && forall n: nat :: Says(g, headers, n) ==> n <= MAX_BODY_BYTES
  {
    if EachValid(g, headers) {
      forall h, n: nat | h in headers ensures IsValidHeader(g, h) && (SaysLength(g, h, n) ==> n <= MAX_BODY_BYTES) {
        JudgeMeaning(g, h);
      }
    } else {
      var h :| h in headers && Judge(g, h).Err?;
      JudgeMeaning(g, h);
      if n: nat :| SaysLength(g, h, n) && n > MAX_BODY_BYTES {
        assert Says(g, headers, n);
      }
    }
  }

  lemma FoldAccepts(g: Grammar, headers: seq<Header>)
    ensures FoldHeaders(g, headers).Ok? <==> AcceptableHeaders(g, headers)
    ensures FoldHeaders(g, headers).Ok? ==>
            forall n: nat :: FoldHeaders(g, headers).value.contentLength == Some(n) <==> Says(g, headers, n)
  {
    FoldMeaning(g, headers);
    EachIsValid(g, headers);
    if EachValid(g, headers) {
      forall length
        ensures AgreesOnLength(g, headers, length) <==> forall n: nat :: length == Some(n) <==> Says(g, headers, n)
      {
        LengthsAgree(g, headers, length);
      }
      if AcceptableHeaders(g, headers) {
        if n: nat :| Says(g, headers, n) {
          assert AgreesOnLength(g, headers, Some(n));
        } else {
          assert AgreesOnLength(g, headers, None);
        }
      }
    }
  }

  /** The `i`th header is the last that names codings. */
  ghost predicate IsLastCoding(g: Grammar, headers: seq<Header>, i: nat) {
    && i < |headers| && IsNamed(g, headers[i], "transfer-encoding")
    && forall j :: i < j < |headers| ==> !IsNamed(g, headers[j], "transfer-encoding")
  }

  lemma LastCodingStep(g: Grammar, front: seq<Header>, last: Header)
    requires Judge(g, last).Ok?
    ensures LastCoding(g, front + [last]) ==
            if IsNamed(g, last, "transfer-encoding") then NamesChunked(TrimOptionalWhitespace(last.value))
            else LastCoding(g, front)
  {
    assert (front + [last])[..|front|] == front;
    JudgeMeaning(g, last);
  }

  lemma {:induction false} FindLastCoding(g: Grammar, headers: seq<Header>) returns (last: Option<nat>)
    requires EachValid(g, headers)
    ensures match last
            case Some(i) =>
              && IsLastCoding(g, headers, i)
              && LastCoding(g, headers) == NamesChunked(TrimOptionalWhitespace(headers[i].value))
            case None =>
              !LastCoding(g, headers) && forall j :: 0 <= j < |headers| ==> !IsNamed(g, headers[j], "transfer-encoding")
    decreases |headers|
  {
    last := None;
    if headers != [] {
      var front, end := headers[..|headers| - 1], headers[|headers| - 1];
      assert headers == front + [end];
      assert end in headers && forall h :: h in front ==> h in headers;
      LastCodingStep(g, front, end);
      if IsNamed(g, end, "transfer-encoding") {
        last := Some(|front|);
      } else {
        last := FindLastCoding(g, front);
      }
    }
  }

  lemma LastCodingMeaning(g: Grammar, headers: seq<Header>)
    requires EachValid(g, headers)
    ensures LastCoding(g, headers) <==>
            exists i: nat :: IsLastCoding(g, headers, i) && NamesChunked(TrimOptionalWhitespace(headers[i].value))
  {
    var last := FindLastCoding(g, headers);
    assert forall i: nat :: IsLastCoding(g, headers, i) ==> last == Some(i);
  }

  /** The same headers in the same order, each name in its normal form, each value trimmed. */
  ghost predicate Normalises(g: Grammar, raw: seq<Header>, headers: seq<Header>)
  {
    && |headers| == |raw|
    && forall i :: 0 <= i < |raw| ==>
         && g.headerName(raw[i].name) == Some(headers[i].name)
         && headers[i].value == TrimOptionalWhitespace(raw[i].value)
  }

  lemma NormalFormIsUnique(g: Grammar, raw: seq<Header>, one: seq<Header>, other: seq<Header>)
    requires Normalises(g, raw, one) && Normalises(g, raw, other)
    ensures one == other
  {
  }

  /** The parser took it for a whole head, and its request line is one the proxy accepts. */
  predicate IsAcceptableLine(g: Grammar, raw: RawHead)
  {
    && raw.Parsed? && raw.method_.Some? && g.methodOk(raw.method_.value)
    && raw.path.Some? && Ascii("/") <= raw.path.value && !(Ascii("//") <= raw.path.value)
    && raw.version in [Some(0), Some(1)]
  }

  /**
   Which heads are accepted and what comes out, all in the parser's terms: its method and path,
   each of its headers normalised and trimmed, the one length they say, and whether the last
   header that names codings names the chunked one.
   */
  lemma ParseMeaning(g: Grammar, head: seq<byte>)
    ensures ParseOutcome(g, head).Ok? <==>
            IsAcceptableLine(g, g.parse(head)) && AcceptableHeaders(g, g.parse(head).headers)
    ensures ParseOutcome(g, head) == Err(HeadersTooLarge) <==> g.parse(head).TooManyHeaders?
    ensures ParseOutcome(g, head).Ok? ==>
            var raw, parsed := g.parse(head), ParseOutcome(g, head).value;
            && raw.method_ == Some(parsed.method_) && raw.path == Some(parsed.target)
            && Normalises(g, raw.headers, parsed.headers)
            && (forall n: nat :: parsed.contentLength == Some(n) <==> Says(g, raw.headers, n))
            && (parsed.hasChunkedBody <==>
                exists i: nat :: IsLastCoding(g, raw.headers, i)
                                 && NamesChunked(TrimOptionalWhitespace(raw.headers[i].value)))
  {
    var raw := g.parse(head);
    if raw.Parsed? {
      FoldAccepts(g, raw.headers);
      FoldErrors(g, raw.headers);
    }
    if ParseOutcome(g, head).Ok? {
      FoldKeepsHeaders(g, raw.headers);
      FoldMeaning(g, raw.headers);
      LastCodingMeaning(g, raw.headers);
      forall i | 0 <= i < |raw.headers|
        ensures g.headerName(raw.headers[i].name) == Some(Judge(g, raw.headers[i]).value.0.name)
        ensures Judge(g, raw.headers[i]).value.0.value == TrimOptionalWhitespace(raw.headers[i].value)
      {
        JudgeMeaning(g, raw.headers[i]);
      }
    }
  }

  lemma {:induction false} FirstRefused(g: Grammar, headers: seq<Header>) returns (i: nat)
    requires FoldHeaders(g, headers).Err?
    ensures i < |headers| && FoldHeaders(g, headers[..i]).Ok?
    ensures FoldHeaders(g, headers) == Absorb(g, FoldHeaders(g, headers[..i]).value, headers[i])
    decreases |headers|
  {
    i := |headers| - 1;
    if FoldHeaders(g, headers[..i]).Err? {
      var front := headers[..i];
      i := FirstRefused(g, front);
      assert front[..i] == headers[..i];
    }
  }

  /** A header over the limit, behind headers that are fine. */
  ghost predicate IsTooLargeAt(g: Grammar, headers: seq<Header>, i: nat) {
    && i < |headers| && AcceptableHeaders(g, headers[..i]) && IsValidHeader(g, headers[i])
    && exists n: nat :: SaysLength(g, headers[i], n) && n > MAX_BODY_BYTES
  }

  /** The body is too large exactly if the first header refused is a length over the limit. */
  lemma TooLargeMeaning(g: Grammar, headers: seq<Header>)
    ensures FoldHeaders(g, headers) == Err(PayloadTooLarge) <==> exists i: nat :: IsTooLargeAt(g, headers, i)
  {
    if FoldHeaders(g, headers) == Err(PayloadTooLarge) {
      var i := FirstRefused(g, headers);
      JudgeMeaning(g, headers[i]);
      FoldAccepts(g, headers[..i]);
      assert IsTooLargeAt(g, headers, i);
    }
    if i: nat :| IsTooLargeAt(g, headers, i) {
      FoldAccepts(g, headers[..i]);
      JudgeMeaning(g, headers[i]);
      FoldOneMore(g, headers, i);
      FoldFailsEarly(g, headers, i + 1);
    }
  }
}

/**
 Reading one HTTP head from a buffered stream: the limited line reader and the head
 reader with its two limits, each proved to compute a function of the whole input that
 does not mention how the input was cut into pieces.
 */
module HttpHead {
  import opened Bytes
  import opened Streams

  const MAX_REQUEST_LINE_BYTES: nat := 8 * 1024
  const MAX_HEADER_BYTES: nat := 64 * 1024

  datatype HttpRequestError = BadRequest | HeadersTooLarge | PayloadTooLarge | UnsupportedChunked

  // ---------------------------------------------------------------- lines

  /** Length of the first line of `s`, its line feed included; all of `s` if it has none. */
  function LineLength(s: seq<byte>): (n: nat)
    ensures n <= |s| && (s != [] ==> n > 0)
  {
    if s == [] then 0 else if s[0] == LF then 1 else 1 + LineLength(s[1..])
  }

  ghost predicate NoLineFeed(s: seq<byte>) {
    forall i :: 0 <= i < |s| ==> s[i] != LF
  }

  lemma NoLineFeedAppend(left: seq<byte>, right: seq<byte>)
    requires NoLineFeed(left) && NoLineFeed(right)
    ensures NoLineFeed(left + right)
  {
  }

  lemma {:induction false} LineLengthSkips(left: seq<byte>, right: seq<byte>)
    requires NoLineFeed(left)
    ensures LineLength(left + right) == |left| + LineLength(right)
  {
    if left == [] {
      assert left + right == right;
    } else {
      LineLengthSkips(left[1..], right);
      assert (left + right)[1..] == left[1..] + right;
    }
  }

  lemma {:induction false} LineLengthStops(left: seq<byte>, right: seq<byte>)
    requires left != []
    ensures var n := LineLength(left);
            && NoLineFeed(left[..n - 1])
            && (if left[n - 1] == LF then LineLength(left + right) == n
                else n == |left| && NoLineFeed(left) && LineLength(left + right) == n + LineLength(right))
  {
    if left[0] != LF && |left| > 1 {
      LineLengthStops(left[1..], right);
      var n := LineLength(left);
      assert left[..n - 1] == [left[0]] + left[1..][..n - 2];
    }
    assert (left + right)[1..] == left[1..] + right;
  }

  /** What reading one line of at most `limit` bytes yields: its length, or the error. */
  function LineOutcome(s: seq<byte>, end: StreamEnd, limit: nat): (r: Result<nat, HttpRequestError>)
    ensures r.Ok? ==> 0 < r.value <= |s| && r.value <= limit
  {
    var n := LineLength(s);
    if n > limit then Err(HeadersTooLarge)
    else if n > 0 && s[n - 1] == LF then Ok(n)
    else if n == 0 || end.Failure? then Err(BadRequest)
    else Ok(n)
  }

  /** What the next buffered piece decides about the line, `done` having been read already. */
  lemma LineOutcomeAfterPiece(done: seq<byte>, piece: seq<byte>, more: seq<byte>, end: StreamEnd, limit: nat)
    requires NoLineFeed(done) && piece != []
    ensures var outcome, take := LineOutcome(done + (piece + more), end, limit), LineLength(piece);
            && (|done| + take > limit ==> outcome == Err(HeadersTooLarge))
            && (|done| + take <= limit && piece[take - 1] == LF ==> outcome == Ok(|done| + take))
            && (piece[take - 1] != LF ==> NoLineFeed(done + piece[..take]))
  {
    LineLengthSkips(done, piece + more);
    LineLengthStops(piece, more);
    var s, take := done + (piece + more), LineLength(piece);
    if piece[take - 1] == LF {
      assert LineLength(s) == |done| + take;
      assert s[|done| + take - 1] == (piece + more)[take - 1] == piece[take - 1];
    } else {
      assert LineLength(s) >= |done| + take;
      NoLineFeedAppend(done, piece);
      assert piece[..take] == piece;
    }
  }

  /** What the end of the stream decides about the line. */
  lemma LineOutcomeAtEnd(done: seq<byte>, end: StreamEnd, limit: nat)
    requires NoLineFeed(done) && |done| <= limit
    ensures LineOutcome(done, end, limit) == if done == [] || end.Failure? then Err(BadRequest) else Ok(|done|)
  {
    LineLengthSkips(done, []);
    assert done + [] == done;
  }

  method ReadLimitedLineBytes(reader: Reader, limit: nat) returns (line: Result<seq<byte>, HttpRequestError>)
    requires reader.Valid()
    modifies reader`buffer, reader`fetched
    ensures reader.Valid()
    ensures match LineOutcome(old(reader.Rest()), reader.end, limit)
            case Err(e) => line == Err(e)
            case Ok(n) => line.Ok? && |line.value| == n
                          && old(reader.Rest()) == line.value + reader.Rest()
                          && reader.Settled()
  {
    var bytes: seq<byte> := [];
    while true
      invariant reader.Valid() && (bytes != [] ==> reader.Settled())
      invariant old(reader.Rest()) == bytes + reader.Rest()
      invariant |bytes| <= limit && NoLineFeed(bytes)
      decreases |reader.Rest()|
    {
      var ok := reader.FillBuf();
      var available := reader.buffer;
      if !ok || available == [] {
        assert bytes + [] == bytes;
        LineOutcomeAtEnd(bytes, reader.end, limit);
        if !ok || bytes == [] {
          return Err(BadRequest);
        }
        return Ok(bytes);
      }
      var take := LineLength(available);
      LineOutcomeAfterPiece(bytes, available, Flatten(reader.pieces[reader.fetched..]), reader.end, limit);
      if |bytes| + take > limit {
        return Err(HeadersTooLarge);
      }
      var piece := available[..take];
      reader.Consume(take);
      Regroup(bytes, piece, reader.Rest());
      bytes := bytes + piece;
      if available[take - 1] == LF {
        return Ok(bytes);
      }
    }
  }

  // ----------------------------------------------------------------- head

  predicate IsBlankLine(line: seq<byte>) {
    line == [CR, LF] || line == [LF]
  }

  /**
   Reading header lines through the first blank one, after a first line of `first` bytes
   and header lines of `used` bytes: the length of the whole head, or the error.
   */
  function HeaderBlockOutcome(s: seq<byte>, end: StreamEnd, first: nat, used: nat): (r: Result<nat, HttpRequestError>)
    ensures r.Ok? ==> first + used < r.value <= first + used + |s|
    decreases |s|
  {
    match LineOutcome(s, end, MAX_HEADER_BYTES)
    case Err(e) => Err(e)
    case Ok(n) =>
      if used + n > MAX_HEADER_BYTES then Err(HeadersTooLarge)
      else if IsBlankLine(s[..n]) then Ok(first + used + n)
      else HeaderBlockOutcome(s[n..], end, first, used + n)
  }

  /** What reading a head yields: its length, or the error. */
  function HeadOutcome(s: seq<byte>, end: StreamEnd): (r: Result<nat, HttpRequestError>)
    ensures r.Ok? ==> r.value <= |s|
  {
    match LineOutcome(s, end, MAX_REQUEST_LINE_BYTES)
    case Err(_) => Err(BadRequest)
    case Ok(n) => HeaderBlockOutcome(s[n..], end, n, 0)
  }

  lemma HeaderBlockStep(s: seq<byte>, line: seq<byte>, rest: seq<byte>, end: StreamEnd, first: nat, used: nat)
    requires s == line + rest && LineOutcome(s, end, MAX_HEADER_BYTES) == Ok(|line|)
    ensures HeaderBlockOutcome(s, end, first, used) ==
            if used + |line| > MAX_HEADER_BYTES then Err(HeadersTooLarge)
            else if IsBlankLine(line) then Ok(first + used + |line|)
            else HeaderBlockOutcome(rest, end, first, used + |line|)
  {
    Regroup(line, rest, []);
  }

  method ReadHttpHead(reader: Reader) returns (head: Result<seq<byte>, HttpRequestError>)
    requires reader.Valid()
    modifies reader`buffer, reader`fetched
    ensures reader.Valid()
    ensures match HeadOutcome(old(reader.Rest()), reader.end)
            case Err(e) => head == Err(e)
            case Ok(n) => head.Ok? && |head.value| == n
                          && old(reader.Rest()) == head.value + reader.Rest()
                          && reader.Settled()
  {
    var requestLine := ReadLimitedLineBytes(reader, MAX_REQUEST_LINE_BYTES);
    if requestLine.Err? {
      return Err(BadRequest);
    }
    var bytes := requestLine.value;
    Regroup(bytes, reader.Rest(), []);
    ghost var outcome := HeadOutcome(old(reader.Rest()), reader.end);
    var headerBytes: nat := 0;
    while true
      invariant reader.Valid()
      invariant old(reader.Rest()) == bytes + reader.Rest()
      invariant |bytes| == |requestLine.value| + headerBytes
      invariant outcome == HeaderBlockOutcome(reader.Rest(), reader.end, |requestLine.value|, headerBytes)
      decreases |reader.Rest()|
    {
      ghost var before := reader.Rest();
      var line := ReadLimitedLineBytes(reader, MAX_HEADER_BYTES);
      if line.Err? {
        return Err(line.error);
      }
      HeaderBlockStep(before, line.value, reader.Rest(), reader.end, |requestLine.value|, headerBytes);
      headerBytes := headerBytes + |line.value|;
      if headerBytes > MAX_HEADER_BYTES {
        return Err(HeadersTooLarge);
      }
      Regroup(bytes, line.value, reader.Rest());
      bytes := bytes + line.value;
      if IsBlankLine(line.value) {
        return Ok(bytes);
      }
    }
  }

  // ------------------------------------------- what a head is, with no reading in it

  /** A blank line, bare or with a carriage return, ends at `n`; it starts a line of `s`. */
  ghost predicate BlankLineEndsAt(s: seq<byte>, n: nat)
    requires n <= |s|
  {
    || (n >= 1 && s[n - 1] == LF && (n == 1 || s[n - 2] == LF))
    || (n >= 2 && s[n - 2] == CR && s[n - 1] == LF && (n == 2 || s[n - 3] == LF))
  }

  /** `n` is where the first blank line of `s` ends, and the limit less `used` allows it. */
  ghost predicate IsHeaderBlock(s: seq<byte>, used: nat, n: nat)
  {
    && n <= |s|
    && used + n <= MAX_HEADER_BYTES
    && BlankLineEndsAt(s, n)
    && forall m: nat :: m < n ==> !BlankLineEndsAt(s, m)
  }

  /** The first `n` bytes of `s` are a head that both limits allow. */
  ghost predicate IsHead(s: seq<byte>, n: nat)
  {
    exists f: nat :: IsHeadWithFirstLine(s, f, n)
  }

  ghost predicate IsHeadWithFirstLine(s: seq<byte>, f: nat, n: nat)
  {
    && 0 < f < n <= |s| && f <= MAX_REQUEST_LINE_BYTES
    && s[f - 1] == LF && NoLineFeed(s[..f - 1])
    && IsHeaderBlock(s[f..], 0, n - f)
  }

  /** The only blank line ending within a first line is that line itself. */
  lemma BlankLineInFirstLine(s: seq<byte>, n: nat)
    requires n <= LineLength(s)
    ensures BlankLineEndsAt(s, n) <==> n == LineLength(s) && IsBlankLine(s[..n])
  {
    if s != [] {
      LineLengthStops(s, []);
      var k := LineLength(s);
      assert forall i :: 0 <= i < k - 1 ==> s[..k - 1][i] == s[i];
    }
  }

  /** After a complete first line, blank lines are those of the rest. */
  lemma BlankLineAfter(line: seq<byte>, rest: seq<byte>, n: nat)
    requires line != [] && line[|line| - 1] == LF && |line| < n <= |line + rest|
    ensures BlankLineEndsAt(line + rest, n) <==> BlankLineEndsAt(rest, n - |line|)
  {
  }

  /** The first blank line of `line + rest` is `line`, or else the first blank line of `rest`. */
  lemma HeaderBlockSplits(line: seq<byte>, rest: seq<byte>, used: nat, n: nat)
    requires line != [] && line[|line| - 1] == LF && LineLength(line + rest) == |line|
    ensures IsHeaderBlock(line + rest, used, n) <==>
            if n <= |line| then n == |line| && used + n <= MAX_HEADER_BYTES && IsBlankLine(line)
            else !IsBlankLine(line) && IsHeaderBlock(rest, used + |line|, n - |line|)
  {
    var s := line + rest;
    Regroup(line, rest, []);
    forall m: nat | m <= |line|
      ensures BlankLineEndsAt(s, m) <==> m == |line| && IsBlankLine(line)
    {
      BlankLineInFirstLine(s, m);
    }
    forall m: nat | |line| < m <= |s|
      ensures BlankLineEndsAt(s, m) <==> BlankLineEndsAt(rest, m - |line|)
    {
      BlankLineAfter(line, rest, m);
    }
    if |line| < n <= |s| && IsHeaderBlock(s, used, n) {
      assert !BlankLineEndsAt(s, |line|);
      forall j: nat | j < n - |line| ensures !BlankLineEndsAt(rest, j) {
        assert !BlankLineEndsAt(s, |line| + j);
      }
    }
  }

  lemma HeaderBlockUnfinished(s: seq<byte>, end: StreamEnd, first: nat, used: nat, n: nat)
    requires NoLineFeed(s)
    ensures HeaderBlockOutcome(s, end, first, used).Err? && !IsHeaderBlock(s, used, n)
  {
    LineLengthSkips(s, []);
    assert s + [] == s && s[|s|..] == [];
  }

  lemma LineTooMany(s: seq<byte>, end: StreamEnd, first: nat, used: nat)
    requires used + LineLength(s) > MAX_HEADER_BYTES
    ensures HeaderBlockOutcome(s, end, first, used).Err?
  {
  }

  /** A complete line decides, or leaves the decision to the rest. */
  lemma HeaderBlockLine(s: seq<byte>, line: seq<byte>, rest: seq<byte>, end: StreamEnd, first: nat, used: nat,
                        n: nat, total: nat)
    requires s == line + rest && line != [] && line[|line| - 1] == LF && LineLength(s) == |line|
    requires total == first + used + n
    requires n > |line| ==> (HeaderBlockOutcome(rest, end, first, used + |line|) == Ok(total)
                             <==> IsHeaderBlock(rest, used + |line|, n - |line|))
    ensures HeaderBlockOutcome(s, end, first, used) == Ok(total) <==> IsHeaderBlock(s, used, n)
  {
    HeaderBlockSplits(line, rest, used, n);
    if used + |line| <= MAX_HEADER_BYTES {
      HeaderBlockStep(s, line, rest, end, first, used);
    } else {
      LineTooMany(s, end, first, used);
    }
  }

  /** The first line ends in a line feed, or there is none at all. */
  lemma FirstLineEnds(s: seq<byte>)
    ensures s != [] ==> 0 < LineLength(s) <= |s|
    ensures s == [] || s[LineLength(s) - 1] != LF ==> NoLineFeed(s)
    ensures s != [] ==> NoLineFeed(s[..LineLength(s) - 1])
  {
    if s != [] {
      LineLengthStops(s, []);
    }
  }

  /** Header lines are read to the end, `total` bytes with all before them, exactly for such a block. */
  lemma {:induction false} HeaderBlockMeaning(s: seq<byte>, end: StreamEnd, first: nat, used: nat, n: nat, total: nat)
    requires total == first + used + n
    ensures HeaderBlockOutcome(s, end, first, used) == Ok(total) <==> IsHeaderBlock(s, used, n)
    decreases |s|
  {
    var k := LineLength(s);
    FirstLineEnds(s);
    if s == [] || s[k - 1] != LF {
      HeaderBlockUnfinished(s, end, first, used, n);
    } else {
      var line, rest := s[..k], s[k..];
      assert s == line + rest;
      if n > k {
        HeaderBlockMeaning(rest, end, first, used + k, n - k, total);
      }
      HeaderBlockLine(s, line, rest, end, first, used, n, total);
    }
  }

  /**
   The head reader succeeds with `n` bytes exactly when those bytes are such a head. How
   the stream ends plays no part in success.
   */
  lemma HeadMeaning(s: seq<byte>, end: StreamEnd, n: nat)
    ensures HeadOutcome(s, end) == Ok(n) <==> IsHead(s, n)
    ensures HeadOutcome(s, end) == Ok(n) ==> n <= MAX_REQUEST_LINE_BYTES + MAX_HEADER_BYTES
  {
    FirstLineEnds(s);
    IsHeadFromLine(s, n);
    if s == [] || s[LineLength(s) - 1] != LF {
      HeadUnfinished(s, end, n);
    } else {
      HeadOutcomeFromLine(s, end, n);
    }
  }

  /** A head begins with the first line, which must be complete. */
  ghost predicate HeadFromLine(s: seq<byte>, n: nat) {
    var k := LineLength(s);
    0 < k < n <= |s| && k <= MAX_REQUEST_LINE_BYTES && s[k - 1] == LF && IsHeaderBlock(s[k..], 0, n - k)
  }

  lemma IsHeadFromLine(s: seq<byte>, n: nat)
    ensures IsHead(s, n) <==> HeadFromLine(s, n)
  {
    FirstLineEnds(s);
    if HeadFromLine(s, n) {
      assert IsHeadWithFirstLine(s, LineLength(s), n);
    }
    if f: nat :| IsHeadWithFirstLine(s, f, n) {
      FirstLineIs(s, f);
    }
  }

  lemma HeadOutcomeFromLine(s: seq<byte>, end: StreamEnd, n: nat)
    requires s != [] && 0 < LineLength(s) <= |s| && s[LineLength(s) - 1] == LF
    ensures HeadOutcome(s, end) == Ok(n) <==> HeadFromLine(s, n)
  {
    var k := LineLength(s);
    if n > k {
      HeaderBlockMeaning(s[k..], end, k, 0, n - k, n);
    }
  }

  lemma FirstLineIs(s: seq<byte>, f: nat)
    requires 0 < f <= |s| && s[f - 1] == LF && NoLineFeed(s[..f - 1])
    ensures LineLength(s) == f
  {
    assert s == s[..f - 1] + s[f - 1..];
    LineLengthSkips(s[..f - 1], s[f - 1..]);
  }

  lemma HeadUnfinished(s: seq<byte>, end: StreamEnd, n: nat)
    requires s == [] || s[LineLength(s) - 1] != LF
    ensures HeadOutcome(s, end).Err?
  {
    if s != [] {
      LineLengthStops(s, []);
      assert s[|s|..] == [];
      HeaderBlockUnfinished([], end, |s|, 0, n);
    }
  }

  /** How many bytes of `s` are complete lines: all through the last line feed. */
  function CompleteLines(s: seq<byte>): (n: nat)
    ensures n <= |s| && NoLineFeed(s[n..])
  {
    if s == [] || s[|s| - 1] == LF then |s|
    else
      var n := CompleteLines(s[..|s| - 1]);
      assert s[n..] == s[..|s| - 1][n..] + [s[|s| - 1]];
      n
  }

  lemma {:induction false} CompleteLinesAfter(line: seq<byte>, rest: seq<byte>)
    requires line != [] && line[|line| - 1] == LF
    ensures CompleteLines(line + rest) == |line| + CompleteLines(rest)
  {
    if rest == [] {
      assert line + rest == line;
    } else if rest[|rest| - 1] != LF {
      CompleteLinesAfter(line, rest[..|rest| - 1]);
      assert (line + rest)[..|line + rest| - 1] == line + rest[..|rest| - 1];
    }
  }

  lemma {:induction false} NoCompleteLines(s: seq<byte>)
    requires NoLineFeed(s)
    ensures CompleteLines(s) == 0
  {
    if s != [] {
      NoCompleteLines(s[..|s| - 1]);
    }
  }

  /**
   No blank line ends within what the limit leaves, and there are more bytes than that. If the
   stream fails, a last line cut short counts only if it is longer than the limit by itself.
   */
  ghost predicate OverflowsHeaders(s: seq<byte>, end: StreamEnd, used: nat)
  {
    && (if end.Eof? then used + |s| > MAX_HEADER_BYTES
        else used + CompleteLines(s) > MAX_HEADER_BYTES || |s| - CompleteLines(s) > MAX_HEADER_BYTES)
    && forall m: nat :: m <= |s| && used + m <= MAX_HEADER_BYTES ==> !BlankLineEndsAt(s, m)
  }

  lemma OverflowSplits(line: seq<byte>, rest: seq<byte>, end: StreamEnd, used: nat)
    requires line != [] && line[|line| - 1] == LF && LineLength(line + rest) == |line|
    requires used + |line| <= MAX_HEADER_BYTES
    ensures OverflowsHeaders(line + rest, end, used) <==>
            !IsBlankLine(line) && OverflowsHeaders(rest, end, used + |line|)
  {
    var s := line + rest;
    CompleteLinesAfter(line, rest);
    Regroup(line, rest, []);
    forall m: nat | m <= |line| ensures BlankLineEndsAt(s, m) <==> m == |line| && IsBlankLine(line) {
      BlankLineInFirstLine(s, m);
    }
    forall m: nat | |line| < m <= |s| ensures BlankLineEndsAt(s, m) <==> BlankLineEndsAt(rest, m - |line|) {
      BlankLineAfter(line, rest, m);
    }
    if OverflowsHeaders(s, end, used) {
      assert !BlankLineEndsAt(s, |line|);
      forall j: nat | j <= |rest| && used + |line| + j <= MAX_HEADER_BYTES ensures !BlankLineEndsAt(rest, j) {
        assert !BlankLineEndsAt(s, |line| + j);
      }
    }
  }

  /** A last line without line feed overflows exactly if it is too long. */
  lemma OverflowUnfinished(s: seq<byte>, end: StreamEnd, first: nat, used: nat)
    requires used <= MAX_HEADER_BYTES && NoLineFeed(s)
    ensures HeaderBlockOutcome(s, end, first, used) == Err(HeadersTooLarge) <==> OverflowsHeaders(s, end, used)
  {
    LineLengthSkips(s, []);
    NoCompleteLines(s);
    assert s + [] == s && s[|s|..] == [];
  }

  /** A complete line overflows, or leaves the decision to the rest. */
  lemma OverflowLine(s: seq<byte>, line: seq<byte>, rest: seq<byte>, end: StreamEnd, first: nat, used: nat)
    requires used <= MAX_HEADER_BYTES && s == line + rest
    requires line != [] && line[|line| - 1] == LF && LineLength(s) == |line|
    requires used + |line| <= MAX_HEADER_BYTES ==>
               (HeaderBlockOutcome(rest, end, first, used + |line|) == Err(HeadersTooLarge)
                <==> OverflowsHeaders(rest, end, used + |line|))
    ensures HeaderBlockOutcome(s, end, first, used) == Err(HeadersTooLarge) <==> OverflowsHeaders(s, end, used)
  {
    if used + |line| <= MAX_HEADER_BYTES {
      HeaderBlockStep(s, line, rest, end, first, used);
      OverflowSplits(line, rest, end, used);
    } else {
      CompleteLinesAfter(line, rest);
      forall m: nat | m < |line| ensures !BlankLineEndsAt(s, m) {
        BlankLineInFirstLine(s, m);
      }
      TooLongOutcome(s, end, first, used);
    }
  }

  lemma TooLongOutcome(s: seq<byte>, end: StreamEnd, first: nat, used: nat)
    requires used + LineLength(s) > MAX_HEADER_BYTES && LineLength(s) > 0
    requires LineLength(s) <= |s| && s[LineLength(s) - 1] == LF
    ensures HeaderBlockOutcome(s, end, first, used) == Err(HeadersTooLarge)
  {
  }

  lemma {:induction false} HeaderOverflowMeaning(s: seq<byte>, end: StreamEnd, first: nat, used: nat)
    requires used <= MAX_HEADER_BYTES
    ensures HeaderBlockOutcome(s, end, first, used) == Err(HeadersTooLarge) <==> OverflowsHeaders(s, end, used)
    decreases |s|
  {
    var k := LineLength(s);
    FirstLineEnds(s);
    if s == [] || s[k - 1] != LF {
      OverflowUnfinished(s, end, first, used);
    } else {
      assert s == s[..k] + s[k..];
      if used + k <= MAX_HEADER_BYTES {
        HeaderOverflowMeaning(s[k..], end, first, used + k);
      }
      OverflowLine(s, s[..k], s[k..], end, first, used);
    }
  }

  /** The header limit is what fails exactly when it is exceeded, whichever way the stream ends. */
  lemma HeadersTooLargeMeaning(s: seq<byte>, end: StreamEnd)
    ensures HeadOutcome(s, end) == Err(HeadersTooLarge) <==>
            LineLength(s) <= MAX_REQUEST_LINE_BYTES && OverflowsHeaders(s[LineLength(s)..], end, 0)
    ensures HeadOutcome(s, end).Err? ==> HeadOutcome(s, end).error in {BadRequest, HeadersTooLarge}
  {
    var k := LineLength(s);
    FirstLineEnds(s);
    HeaderOverflowMeaning(s[k..], end, k, 0);
    HeaderBlockErrors(s[k..], end, k, 0);
  }

  lemma {:induction false} HeaderBlockErrors(s: seq<byte>, end: StreamEnd, first: nat, used: nat)
    ensures var outcome := HeaderBlockOutcome(s, end, first, used);
            outcome.Err? ==> outcome.error in {BadRequest, HeadersTooLarge}
    decreases |s|
  {
    match LineOutcome(s, end, MAX_HEADER_BYTES)
    case Err(_) =>
    case Ok(n) => HeaderBlockErrors(s[n..], end, first, used + n);
  }
}

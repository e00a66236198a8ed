/** The client's health check: one request through the tunnel, and what of the answer tells that all is well. */
module HealthCheck {
  import opened Bytes
  import opened HttpDecoding
  import opened HttpResponse
  import opened OpenAiClientSession

  predicate BlankLineAt(s: seq<byte>, i: nat) {
    i + 4 <= |s| && s[i..i + 4] == CRLF + CRLF
  }

  ghost predicate HoldsBlankLine(s: seq<byte>) {
    exists i: nat :: BlankLineAt(s, i)
  }

  method FindBlankLine(s: seq<byte>) returns (found: bool)
    ensures found <==> HoldsBlankLine(s)
  {
    var i: nat := 0;
    while i + 4 <= |s|
      invariant forall j: nat :: j < i ==> !BlankLineAt(s, j)
    {
      if BlankLineAt(s, i) {
        return true;
      }
      i := i + 1;
    }
    return false;
  }

  /** All the data delivered, and the event that stopped it: a timeout if none is listed. */
  function Delivered(incoming: seq<ReadEvent>): (seq<byte>, ReadEvent)
  {
    if incoming == [] then ([], TimedOut)
    else if !incoming[0].Data? then ([], incoming[0])
    else
      var (bytes, stop) := Delivered(incoming[1..]);
      (incoming[0].bytes + bytes, stop)
  }

  const STATUS_OK: seq<byte> := Ascii("HTTP/1.1 200")

  /** Healthy if the answer starts with status 200 and its head, or the stream, came to an end. */
  ghost predicate IsHealthy(bytes: seq<byte>, stop: ReadEvent) {
    STATUS_OK <= bytes && (HoldsBlankLine(bytes) || stop.End?)
  }

  /** The verdict depends on the bytes delivered, not on how reads cut them up. */
  method ReadHealthResponse(incoming: seq<ReadEvent>) returns (healthy: bool)
    ensures healthy <==> IsHealthy(Delivered(incoming).0, Delivered(incoming).1)
  {
    ghost var (bytes, stop) := Delivered(incoming);
    var response: seq<byte> := [];
    for i := 0 to |incoming|
      invariant bytes == response + Delivered(incoming[i..]).0 && stop == Delivered(incoming[i..]).1
      invariant !HoldsBlankLine(response)
    {
      assert incoming[i..][1..] == incoming[i + 1..];
      match incoming[i] {
        case TimedOut =>
          assert response + [] == response;
          return false;
        case ReadFailed =>
          assert response + [] == response;
          return false;
        case End =>
          assert response + [] == response;
          return STATUS_OK <= response;
        case Data(more) =>
          ghost var rest := Delivered(incoming[i + 1..]).0;
          Regroup(response, more, rest);
          response := response + more;
          var done := FindBlankLine(response);
          if done {
            BlankLineComesAfterStatus(response, rest);
            return STATUS_OK <= response;
          }
      }
    }
    assert response + [] == response;
    return false;
  }

  /** The status line holds no line end, so a blank line in hand means the whole of it is in hand. */
  lemma BlankLineComesAfterStatus(response: seq<byte>, rest: seq<byte>)
    requires HoldsBlankLine(response)
    ensures HoldsBlankLine(response + rest)
    ensures STATUS_OK <= response + rest <==> STATUS_OK <= response
  {
    var i: nat :| BlankLineAt(response, i);
    assert (response + rest)[i..i + 4] == response[i..i + 4];
    assert BlankLineAt(response + rest, i);
    OpenAiClientSession.CleanText("HTTP/1.1 200");
    assert response[i] == response[i..i + 4][0] == CR;
    if STATUS_OK <= response + rest {
      assert forall j :: 0 <= j < |STATUS_OK| ==> STATUS_OK[j] in STATUS_OK && STATUS_OK[j] == (response + rest)[j];
    }
  }

  // ----------------------------------------------------------------- what it comes to

  /** However the answer is cut into reads, it is delivered in one piece, up to the event that stops it. */
  lemma {:induction false} DeliveredIsAll(pieces: seq<seq<byte>>, stop: ReadEvent)
    requires !stop.Data?
    ensures Delivered(Reads(pieces, stop)) == (Flatten(pieces), stop)
  {
    if pieces != [] {
      DeliveredIsAll(pieces[1..], stop);
      assert Reads(pieces, stop)[1..] == Reads(pieces[1..], stop);
    }
  }

  predicate LineEndsAt(s: seq<byte>, i: nat) {
    i + 2 <= |s| && s[i] == CR && s[i + 1] == LF
  }

  lemma BlankLineIsTwoEnds(s: seq<byte>, i: nat)
    ensures BlankLineAt(s, i) <==> LineEndsAt(s, i) && LineEndsAt(s, i + 2)
  {
    if i + 4 <= |s| {
      assert s[i..i + 4] == [s[i], s[i + 1], s[i + 2], s[i + 3]];
    }
  }

  /** The first line is what stands before the first line end. */
  lemma {:induction false} ReadLineMeaning(s: seq<byte>, i: nat)
    ensures ReadLine(s).None? ==> !LineEndsAt(s, i)
    ensures ReadLine(s).Some? ==>
            var n := |ReadLine(s).value.0|;
            LineEndsAt(s, n) && ReadLine(s).value.1 == s[n + 2..] && (i < n ==> !LineEndsAt(s, i))
    decreases |s|
  {
    if |s| >= 2 && !(s[0] == CR && s[1] == LF) {
      ReadLineMeaning(s[1..], if i > 0 then i - 1 else 0);
      if ReadLine(s).Some? {
        DropTwice(s, 1, |ReadLine(s[1..]).value.0| + 2);
      }
    }
  }

  /** A head is complete exactly where a blank line is found; the search takes any pair of line ends in a row. */
  lemma {:induction false} BlankLineMeaning(s: seq<byte>)
    ensures ReadFields(s).Some? <==> LineEndsAt(s, 0) || HoldsBlankLine(s)
    decreases |s|
  {
    if ReadLine(s).None? {
      forall i: nat ensures !BlankLineAt(s, i) && !LineEndsAt(s, i) {
        ReadLineMeaning(s, i);
        BlankLineIsTwoEnds(s, i);
      }
    } else {
      var n := |ReadLine(s).value.0|;
      ReadLineMeaning(s, 0);
      if n > 0 {
        BlankLineMeaning(s[n + 2..]);
        forall i: nat | i < n ensures !LineEndsAt(s, i) {
          ReadLineMeaning(s, i);
        }
        BlankLineBehind(s, n);
      }
    }
  }

  /** Behind the first line end, a blank line starts there or later. */
  lemma BlankLineBehind(s: seq<byte>, n: nat)
    requires LineEndsAt(s, n) && forall i: nat :: i < n ==> !LineEndsAt(s, i)
    ensures HoldsBlankLine(s) <==> LineEndsAt(s[n + 2..], 0) || HoldsBlankLine(s[n + 2..])
  {
    var rest := s[n + 2..];
    BlankLineIsTwoEnds(s, n);
    if i: nat :| BlankLineAt(s, i) {
      BlankLineIsTwoEnds(s, i);
      if i >= n + 2 {
        BlankLineIsTwoEnds(rest, i - n - 2);
      }
    }
    if i: nat :| BlankLineAt(rest, i) {
      BlankLineIsTwoEnds(rest, i);
      BlankLineIsTwoEnds(s, n + 2 + i);
    }
  }

  /** Of a plain response, a part holds the head exactly if it is as long. */
  lemma HeadIsRead(status: nat, reason: seq<byte>, body: seq<byte>, received: seq<byte>)
    requires NoLineEnds(reason) && received <= PlainResponse(status, reason, body)
    ensures ReadFields(received).Some? <==> LinesThen(PlainHeadLines(status, reason, body), CRLF) <= received
  {
    var lines, message := PlainHeadLines(status, reason, body), PlainResponse(status, reason, body);
    var head, more := LinesThen(lines, CRLF), message[|received|..];
    PlainHeadClean(status, reason, body);
    LinesThenPrefix(lines, CRLF, body);
    ReadFieldsOf(lines, body);
    ReadFieldsOf(lines, []);
    assert CRLF + [] == CRLF && message == received + more && message == head + body;
    if ReadFields(received).Some? {
      ReadFieldsStable(received, more);
      assert |received| == |head| + |ReadFields(received).value.1|;
    }
    if head <= received {
      ReadFieldsStable(head, received[|head|..]);
      assert received == head + received[|head|..];
    }
  }

  /**
   The check takes any part of a plain answer for healthy exactly if its status is 200 and it
   holds the whole head, or the stream ended behind the status.
   */
  lemma HealthMeaning(status: nat, reason: seq<byte>, body: seq<byte>, received: seq<byte>, stop: ReadEvent)
    requires 100 <= status < 1000 && NoLineEnds(reason) && received <= PlainResponse(status, reason, body)
    ensures IsHealthy(received, stop) <==>
            && status == 200 && |received| >= 12
            && (LinesThen(PlainHeadLines(status, reason, body), CRLF) <= received || stop.End?)
  {
    HeadIsRead(status, reason, body, received);
    BlankLineMeaning(received);
    StatusIsRead(status, reason, body, received);
  }

  lemma StatusIsRead(status: nat, reason: seq<byte>, body: seq<byte>, received: seq<byte>)
    requires 100 <= status < 1000 && received <= PlainResponse(status, reason, body)
    ensures STATUS_OK <= received <==> status == 200 && |received| >= 12
    ensures !LineEndsAt(received, 0)
  {
    StatusLineMeaning(status, reason);
    var line := StatusLine(status, reason);
    var digits: seq<byte> := [48 + status / 100, 48 + status / 10 % 10, 48 + status % 10];
    assert line[..12] == Ascii("HTTP/1.1 ") + digits;
    assert PlainResponse(status, reason, body) ==
           (line + CRLF) + LinesThen(PlainHeadLines(status, reason, body)[1..], CRLF + body);
    assert Ascii("HTTP/1.1 200") == Ascii("HTTP/1.1 ") + [50, 48, 48];
    if |received| >= 12 {
      assert received[..12] == PlainResponse(status, reason, body)[..12] == line[..12];
      assert received[9..12] == received[..12][9..] == digits && received[..9] == received[..12][..9];
      assert digits == [50, 48, 48] <==> status == 200;
      assert STATUS_OK <= received <==> received[..12] == STATUS_OK;
      assert STATUS_OK[9..] == [50, 48, 48];
    }
    assert PlainResponse(status, reason, body)[0] == line[..12][0] == 72;
  }
}

/** Percent decoding of request paths (section 2.1 of RFC 3986). */
module PercentDecoding {
  import opened Bytes
  import opened Numerals

  const PERCENT: byte := 37

  /** The value of a hexadecimal digit of either case. */
  function HexValue(b: byte): Option<byte>
  {
    DigitValue(b)
  }

  /** The bytes a segment stands for; nothing if some `%` lacks its two digits. */
  function Decode(s: seq<byte>): Option<seq<byte>>
  {
    if s == [] then Some([])
    else if s[0] != PERCENT then
      match Decode(s[1..])
      case None => None
      case Some(rest) => Some([s[0]] + rest)
    else if |s| < 3 || HexValue(s[1]).None? || HexValue(s[2]).None? then None
    else
      match Decode(s[3..])
      case None => None
      case Some(rest) => Some([16 * HexValue(s[1]).value + HexValue(s[2]).value] + rest)
  }

  method PercentDecodePathSegment(segment: seq<byte>) returns (decoded: Option<seq<byte>>)
    ensures decoded == Decode(segment)
  {
    var bytes: seq<byte> := [];
    var index := 0;
    assert segment[0..] == segment;
    PrependJoins([], [], Decode(segment));
    while index < |segment|
      invariant 0 <= index <= |segment|
      invariant Decode(segment) == Prepend(bytes, Decode(segment[index..]))
    {
      ghost var rest := segment[index..];
      if segment[index] == PERCENT {
        if index + 2 >= |segment| {
          return None;
        }
        var high, low := HexValue(segment[index + 1]), HexValue(segment[index + 2]);
        if high.None? || low.None? {
          return None;
        }
        assert rest[3..] == segment[index + 3..];
        PrependJoins(bytes, [16 * high.value + low.value], Decode(rest[3..]));
        bytes := bytes + [16 * high.value + low.value];
        index := index + 3;
      } else {
        assert rest[1..] == segment[index + 1..];
        PrependJoins(bytes, [segment[index]], Decode(rest[1..]));
        bytes := bytes + [segment[index]];
        index := index + 1;
      }
    }
    assert Decode(segment[index..]) == Some([]) && bytes + [] == bytes;
    return Some(bytes);
  }

  function Prepend(front: seq<byte>, rest: Option<seq<byte>>): Option<seq<byte>> {
    if rest.None? then None else Some(front + rest.value)
  }

  lemma PrependJoins(a: seq<byte>, b: seq<byte>, rest: Option<seq<byte>>)
    ensures Prepend(a, Prepend(b, rest)) == Prepend(a + b, rest)
    ensures Prepend([], rest) == rest
  {
    if rest.Some? {
      assert a + (b + rest.value) == (a + b) + rest.value;
      assert [] + rest.value == rest.value;
    }
  }

  // -------------------------------------------------------- when decoding succeeds

  ghost predicate EveryEscapeComplete(s: seq<byte>) {
    forall i :: 0 <= i < |s| && s[i] == PERCENT ==>
      i + 2 < |s| && HexValue(s[i + 1]).Some? && HexValue(s[i + 2]).Some?
  }

  lemma {:induction false} DecodesIffEscapesComplete(s: seq<byte>)
    ensures Decode(s).Some? <==> EveryEscapeComplete(s)
  {
    if s == [] {
    } else if s[0] != PERCENT {
      DecodesIffEscapesComplete(s[1..]);
      EscapesShift(s, 1);
    } else if |s| >= 3 && HexValue(s[1]).Some? && HexValue(s[2]).Some? {
      DecodesIffEscapesComplete(s[3..]);
      EscapesShift(s, 3);
    }
  }

  lemma EscapesShift(s: seq<byte>, n: nat)
    requires n <= |s|
    requires forall i :: 0 <= i < n && s[i] == PERCENT ==>
               i + 2 < |s| && HexValue(s[i + 1]).Some? && HexValue(s[i + 2]).Some?
    ensures EveryEscapeComplete(s) <==> EveryEscapeComplete(s[n..])
  {
    if EveryEscapeComplete(s) {
      forall i | 0 <= i < |s[n..]| && s[n..][i] == PERCENT
        ensures i + 2 < |s[n..]| && HexValue(s[n..][i + 1]).Some? && HexValue(s[n..][i + 2]).Some?
      {
        assert s[n + i] == PERCENT;
      }
    }
    if EveryEscapeComplete(s[n..]) {
      forall i | 0 <= i < |s| && s[i] == PERCENT
        ensures i + 2 < |s| && HexValue(s[i + 1]).Some? && HexValue(s[i + 2]).Some?
      {
        if i >= n {
          assert s[n..][i - n] == PERCENT;
        }
      }
    }
  }

  // -------------------------------------------------------------- every encoder

  /** How an encoder may write one byte: as itself, or escaped with digits of either case. */
  datatype Style = Literal | Escaped(upperHigh: bool, upperLow: bool)

  function HexDigit(d: nat, upper: bool): byte
    requires d < 16
  {
    if d < 10 then 48 + d else (if upper then 55 else 87) + d
  }

  /** One percent-encoding of `bytes`, chosen byte by byte; a `%` is never written as itself. */
  function Encode(bytes: seq<byte>, styles: seq<Style>): seq<byte>
    requires |bytes| == |styles|
    requires forall i :: 0 <= i < |bytes| && bytes[i] == PERCENT ==> styles[i].Escaped?
  {
    if bytes == [] then []
    else
      (match styles[0]
       case Literal => [bytes[0]]
       case Escaped(high, low) => [PERCENT, HexDigit(bytes[0] / 16, high), HexDigit(bytes[0] % 16, low)])
      + Encode(bytes[1..], styles[1..])
  }

  /** Decoding inverts every percent-encoder. */
  lemma {:induction false} DecodeInvertsEncode(bytes: seq<byte>, styles: seq<Style>)
    requires |bytes| == |styles|
    requires forall i :: 0 <= i < |bytes| && bytes[i] == PERCENT ==> styles[i].Escaped?
    ensures Decode(Encode(bytes, styles)) == Some(bytes)
  {
    if bytes != [] {
      DecodeInvertsEncode(bytes[1..], styles[1..]);
      var encoded, rest := Encode(bytes, styles), Encode(bytes[1..], styles[1..]);
      match styles[0] {
        case Literal => assert encoded[1..] == rest;
        case Escaped(_, _) => assert encoded[3..] == rest;
      }
      assert [bytes[0]] + bytes[1..] == bytes;
    }
  }

  lemma HexRoundTrip(high: byte, low: byte)
    requires HexValue(high).Some? && HexValue(low).Some?
    ensures var b := 16 * HexValue(high).value + HexValue(low).value;
            && HexDigit(b / 16, 65 <= high <= 70) == high
            && HexDigit(b % 16, 65 <= low <= 70) == low
  {
  }

  /** Whatever decodes was written by some encoder. */
  lemma {:induction false} DecodedWasEncoded(s: seq<byte>) returns (styles: seq<Style>)
    requires Decode(s).Some?
    ensures |styles| == |Decode(s).value|
    ensures forall i :: 0 <= i < |styles| && Decode(s).value[i] == PERCENT ==> styles[i].Escaped?
    ensures s == Encode(Decode(s).value, styles)
  {
    styles := [];
    if s != [] {
      var bytes := Decode(s).value;
      if s[0] != PERCENT {
        var rest := DecodedWasEncoded(s[1..]);
        styles := [Literal] + rest;
        assert bytes[1..] == Decode(s[1..]).value && styles[1..] == rest;
      } else {
        var rest := DecodedWasEncoded(s[3..]);
        styles := [Escaped(65 <= s[1] <= 70, 65 <= s[2] <= 70)] + rest;
        assert bytes[1..] == Decode(s[3..]).value && styles[1..] == rest;
        HexRoundTrip(s[1], s[2]);
        assert s == [s[0], s[1], s[2]] + s[3..];
      }
    }
  }

  // ------------------------------------------------------- decoding and splitting

  lemma {:induction false} DecodeConcat(left: seq<byte>, right: seq<byte>)
    requires Decode(left).Some?
    ensures Decode(left + right) == Prepend(Decode(left).value, Decode(right))
  {
    if left == [] {
      assert left + right == right;
      PrependJoins([], [], Decode(right));
    } else {
      var n := if left[0] == PERCENT then 3 else 1;
      DecodeConcat(left[n..], right);
      assert (left + right)[n..] == left[n..] + right;
      PrependJoins(Decode(left).value[..1], Decode(left[n..]).value, Decode(right));
    }
  }

  ghost predicate PartsDecodeWithout(parts: seq<seq<byte>>, separator: byte) {
    forall p :: p in parts ==> Decode(p).Some? && separator !in Decode(p).value
  }

  function DecodeAll(parts: seq<seq<byte>>): seq<seq<byte>>
    requires forall p :: p in parts ==> Decode(p).Some?
  {
    if parts == [] then [] else [Decode(parts[0]).value] + DecodeAll(parts[1..])
  }

  /**
   Decoding the whole and then splitting is splitting and then decoding, when no part hides
   an encoded separator.
   */
  lemma {:induction false} DecodeCommutesWithSplit(s: seq<byte>, separator: byte)
    requires separator != PERCENT
    requires PartsDecodeWithout(Split(s, separator), separator)
    ensures Decode(s).Some? && Split(Decode(s).value, separator) == DecodeAll(Split(s, separator))
    decreases |s|
  {
    SplitFirst(s, separator);
    var parts, first := Split(s, separator), UpTo(s, separator);
    assert first in parts;
    SplitOfPart(Decode(first).value, separator);
    if |first| < |s| {
      var rest := s[|first| + 1..];
      assert forall p :: p in parts[1..] ==> p in parts;
      DecodeCommutesWithSplit(rest, separator);
      DecodeConcat(first, [separator] + rest);
      assert ([separator] + rest)[1..] == rest;
      SplitConcat(Decode(first).value, Decode(rest).value, separator);
    } else {
      assert s == first;
    }
  }

  lemma {:induction false} DecodeAllParts(parts: seq<seq<byte>>)
    requires forall p :: p in parts ==> Decode(p).Some?
    ensures |DecodeAll(parts)| == |parts|
    ensures forall i :: 0 <= i < |parts| ==> DecodeAll(parts)[i] == Decode(parts[i]).value
  {
    if parts != [] {
      assert forall p :: p in parts[1..] ==> p in parts;
      DecodeAllParts(parts[1..]);
    }
  }
}

/** Bytes, byte strings and the small result types shared by every module. */
module Bytes {

  type byte = x: int | 0 <= x < 256

  type u16 = x: int | 0 <= x < 0x1_0000

  const CR: byte := 13
  const LF: byte := 10
  const SPACE: byte := 32
  const TAB: byte := 9
  const SLASH: byte := 47
  const COLON: byte := 58
  const CRLF: seq<byte> := [CR, LF]

  datatype Option<+T> = None | Some(value: T)

  datatype Result<+T, +E> = Ok(value: T) | Err(error: E)

  /** The bytes of an ASCII literal. */
  function Ascii(text: string): (bytes: seq<byte>)
    ensures |bytes| == |text|
    ensures forall i :: 0 <= i < |text| && text[i] as int < 256 ==> bytes[i] == text[i] as int
  {
    seq(|text|, i requires 0 <= i < |text| => (text[i] as int) % 256)
  }

  lemma Regroup<T>(a: seq<T>, b: seq<T>, c: seq<T>)
    ensures a + (b + c) == (a + b) + c
    ensures (a + b)[|a|..] == b && (a + b)[..|a|] == a
  {
  }

  /** Where the parts of `s` lie that were read one after the other. */
  lemma ReadInTurn(s: seq<byte>, a: seq<byte>, b: seq<byte>, rest: seq<byte>)
    requires s == a + (b + rest)
    ensures s[|a|..] == b + rest && s[|a|..|a| + |b|] == b && s[|a| + |b|..] == rest
  {
    Regroup(a, b, rest);
  }

  lemma DropTwice(s: seq<byte>, i: nat, j: nat)
    requires i + j <= |s|
    ensures s[i..][j..] == s[i + j..]
  {
  }

  /** Concatenation of a list of byte strings. */
  function Flatten(parts: seq<seq<byte>>): seq<byte>
  {
    if parts == [] then [] else parts[0] + Flatten(parts[1..])
  }

  lemma {:induction false} FlattenAppend(left: seq<seq<byte>>, right: seq<seq<byte>>)
    ensures Flatten(left + right) == Flatten(left) + Flatten(right)
  {
    if left == [] {
      assert left + right == right;
    } else {
      FlattenAppend(left[1..], right);
      assert (left + right)[0] == left[0] && (left + right)[1..] == left[1..] + right;
      Regroup(left[0], Flatten(left[1..]), Flatten(right));
    }
  }

  /** Every part holds at least one byte: what a stream read that is not end of file returns. */
  ghost predicate AllNonEmpty(parts: seq<seq<byte>>)
  {
    forall i :: 0 <= i < |parts| ==> parts[i] != []
  }

  /** Upper-case letters become lower-case ones, the rest stays. */
  function ToLower(b: byte): (r: byte)
    ensures 'A' <= b as char <= 'Z' ==> r == b + ('a' as int - 'A' as int)
    ensures !('A' <= b as char <= 'Z') ==> r == b
  {
    if 65 <= b <= 90 then b + 32 else b
  }

  function LowerAll(bytes: seq<byte>): (r: seq<byte>)
    ensures |r| == |bytes| && forall i :: 0 <= i < |bytes| ==> r[i] == ToLower(bytes[i])
  {
    seq(|bytes|, i requires 0 <= i < |bytes| => ToLower(bytes[i]))
  }

  /** What precedes the first separator; all of `s` if there is none. */
  function UpTo(s: seq<byte>, separator: byte): seq<byte>
  {
    if s == [] || s[0] == separator then [] else [s[0]] + UpTo(s[1..], separator)
  }

  lemma {:induction false} UpToEnd(s: seq<byte>, separator: byte, rest: seq<byte>)
    requires separator !in s
    ensures UpTo(s, separator) == s && UpTo(s + ([separator] + rest), separator) == s
  {
    var all := s + ([separator] + rest);
    if s != [] {
      UpToEnd(s[1..], separator, rest);
      assert all[1..] == s[1..] + ([separator] + rest);
    }
  }

  /** The parts of `value` between separators; always at least one part. */
  function Split(value: seq<byte>, separator: byte): (parts: seq<seq<byte>>)
    ensures parts != []
  {
    if value == [] then [[]]
    else
      PutBefore(value[0], Split(value[1..], separator), separator)
  }

  /** A separator starts a new first part; any other byte joins the first part. */
  function PutBefore(b: byte, parts: seq<seq<byte>>, separator: byte): (r: seq<seq<byte>>)
    requires parts != []
    ensures r != []
  {
    if b == separator then [[]] + parts else [[b] + parts[0]] + parts[1..]
  }

  lemma PutBeforeConcat(b: byte, left: seq<seq<byte>>, right: seq<seq<byte>>, separator: byte)
    requires left != []
    ensures PutBefore(b, left + right, separator) == PutBefore(b, left, separator) + right
  {
  }

  lemma {:induction false} SplitOfPart(part: seq<byte>, separator: byte)
    requires separator !in part
    ensures Split(part, separator) == [part]
  {
    if part != [] {
      assert part[0] in part && forall b :: b in part[1..] ==> b in part;
      SplitOfPart(part[1..], separator);
      assert [part[0]] + part[1..] == part && |Split(part[1..], separator)| == 1;
    }
  }

  lemma {:induction false} SplitConcat(left: seq<byte>, right: seq<byte>, separator: byte)
    ensures Split(left + ([separator] + right), separator) == Split(left, separator) + Split(right, separator)
  {
    var all := left + ([separator] + right);
    if left == [] {
      assert all[1..] == right;
    } else {
      SplitConcat(left[1..], right, separator);
      assert all[0] == left[0] && all[1..] == left[1..] + ([separator] + right);
      PutBeforeConcat(left[0], Split(left[1..], separator), Split(right, separator), separator);
    }
  }

  /** The first part and, if there is a separator, the rest after it. */
  lemma {:induction false} SplitFirst(s: seq<byte>, separator: byte)
    ensures var first := UpTo(s, separator);
            && separator !in first && |first| <= |s| && s[..|first|] == first
            && Split(s, separator)[0] == first
            && (|first| == |s| ==> Split(s, separator) == [first])
            && (|first| < |s| ==> s == first + ([separator] + s[|first| + 1..])
                                  && Split(s, separator)[1..] == Split(s[|first| + 1..], separator))
  {
    if s != [] && s[0] != separator {
      SplitFirst(s[1..], separator);
    }
  }

  /** The parts put together again, separators between them. */
  function JoinParts(parts: seq<seq<byte>>, separator: byte): seq<byte>
    requires parts != []
  {
    if |parts| == 1 then parts[0] else parts[0] + ([separator] + JoinParts(parts[1..], separator))
  }

  /** Splitting yields the one list of parts without separators that puts the value together. */
  lemma {:induction false} SplitMeaning(value: seq<byte>, separator: byte)
    ensures JoinParts(Split(value, separator), separator) == value
    ensures forall p :: p in Split(value, separator) ==> separator !in p
  {
    if value != [] {
      SplitMeaning(value[1..], separator);
      var rest := Split(value[1..], separator);
      assert [value[0]] + value[1..] == value;
      if value[0] == separator {
        assert ([[]] + rest)[1..] == rest && [] + ([separator] + value[1..]) == value;
      } else {
        var parts := [[value[0]] + rest[0]] + rest[1..];
        assert parts[1..] == rest[1..];
        if |rest| > 1 {
          Regroup([value[0]], rest[0], [separator] + JoinParts(rest[1..], separator));
        }
      }
    }
  }

  lemma {:induction false} JoinSplits(parts: seq<seq<byte>>, separator: byte)
    requires parts != [] && forall p :: p in parts ==> separator !in p
    ensures Split(JoinParts(parts, separator), separator) == parts
  {
    SplitOfPart(parts[0], separator);
    if |parts| > 1 {
      assert forall p :: p in parts[1..] ==> p in parts;
      JoinSplits(parts[1..], separator);
      SplitConcat(parts[0], JoinParts(parts[1..], separator), separator);
      assert [parts[0]] + parts[1..] == parts;
    } else {
      assert [parts[0]] == parts;
    }
  }

  /** A byte of the value is a separator between parts, or in one of them. */
  lemma {:induction false} JoinHolds(parts: seq<seq<byte>>, separator: byte, b: byte)
    requires parts != []
    ensures b in JoinParts(parts, separator) <==> (b == separator && |parts| > 1) || exists p :: p in parts && b in p
  {
    if |parts| > 1 {
      JoinHolds(parts[1..], separator, b);
      assert forall p :: p in parts <==> p == parts[0] || p in parts[1..];
    } else {
      assert forall p :: p in parts <==> p == parts[0];
    }
  }
}

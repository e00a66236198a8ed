/** Text as bytes: which byte strings are well-formed UTF-8 (RFC 3629). */
module Utf8 {
  import opened Bytes

  /** A continuation byte of a multi-byte character. */
  predicate Continues(b: byte) {
    128 <= b < 192
  }

  /** Well-formed UTF-8: no overlong forms, no surrogates, nothing above U+10FFFF. */
  predicate IsUtf8(s: seq<byte>)
  {
    if s == [] then true
    else if s[0] < 128 then IsUtf8(s[1..])
    else if 194 <= s[0] < 224 then |s| >= 2 && Continues(s[1]) && IsUtf8(s[2..])
    else if 224 <= s[0] < 240 then
      |s| >= 3 && Continues(s[1]) && Continues(s[2])
      && (s[0] == 224 ==> s[1] >= 160) && (s[0] == 237 ==> s[1] < 160) && IsUtf8(s[3..])
    else
      240 <= s[0] < 245 && |s| >= 4 && Continues(s[1]) && Continues(s[2]) && Continues(s[3])
      && (s[0] == 240 ==> s[1] >= 144) && (s[0] == 244 ==> s[1] < 144) && IsUtf8(s[4..])
  }

  type Scalar = c: nat | c < 0xD800 || 0xE000 <= c < 0x11_0000

  /** A character as section 3 of RFC 3629 writes it. */
  function CharBytes(c: Scalar): seq<byte>
  {
    if c < 0x80 then [c]
    else if c < 0x800 then [192 + c / 64, 128 + c % 64]
    else if c < 0x1_0000 then [224 + c / 4096, 128 + c / 64 % 64, 128 + c % 64]
    else [240 + c / 262144, 128 + c / 4096 % 64, 128 + c / 64 % 64, 128 + c % 64]
  }

  function TextBytes(chars: seq<Scalar>): seq<byte>
  {
    if chars == [] then [] else CharBytes(chars[0]) + TextBytes(chars[1..])
  }

  lemma CharThenText(c: Scalar, rest: seq<byte>)
    ensures IsUtf8(CharBytes(c) + rest) <==> IsUtf8(rest)
  {
    var s := CharBytes(c) + rest;
    assert s[|CharBytes(c)|..] == rest;
  }

  lemma FirstChar(s: seq<byte>) returns (c: Scalar)
    requires IsUtf8(s) && s != []
    ensures CharBytes(c) <= s && IsUtf8(s[|CharBytes(c)|..])
  {
    var first: int := s[0];
    if first < 128 {
      c := first;
    } else if first < 224 {
      c := FromTwo(first - 192, s[1] as int - 128);
    } else if first < 240 {
      c := FromThree(first - 224, s[1] as int - 128, s[2] as int - 128);
    } else {
      c := FromFour(first - 240, s[1] as int - 128, s[2] as int - 128, s[3] as int - 128);
    }
  }

  lemma FromTwo(a: nat, b: nat) returns (c: nat)
    requires b < 64
    ensures c == 64 * a + b && c / 64 == a && c % 64 == b
  {
    c := 64 * a + b;
  }

  lemma FromThree(a: nat, b: nat, d: nat) returns (c: nat)
    requires b < 64 && d < 64
    ensures c == 4096 * a + 64 * b + d && c / 4096 == a && c / 64 % 64 == b && c % 64 == d
  {
    c := 64 * (64 * a + b) + d;
    assert c / 64 == 64 * a + b;
  }

  lemma FromFour(a: nat, b: nat, d: nat, e: nat) returns (c: nat)
    requires b < 64 && d < 64 && e < 64
    ensures c == 262144 * a + 4096 * b + 64 * d + e
    ensures c / 262144 == a && c / 4096 % 64 == b && c / 64 % 64 == d && c % 64 == e
  {
    c := 64 * (4096 * a + 64 * b + d) + e;
    assert c / 64 == 4096 * a + 64 * b + d;
    assert c / 4096 == 64 * a + b;
  }

  lemma {:induction false} TextIsUtf8(chars: seq<Scalar>)
    ensures IsUtf8(TextBytes(chars))
  {
    if chars != [] {
      TextIsUtf8(chars[1..]);
      CharThenText(chars[0], TextBytes(chars[1..]));
    }
  }

  lemma {:induction false} Utf8IsText(s: seq<byte>) returns (chars: seq<Scalar>)
    requires IsUtf8(s)
    ensures s == TextBytes(chars)
    decreases |s|
  {
    chars := [];
    if s != [] {
      var c := FirstChar(s);
      var n := |CharBytes(c)|;
      var rest := Utf8IsText(s[n..]);
      chars := [c] + rest;
      assert chars[1..] == rest && s == s[..n] + s[n..] && s[..n] == CharBytes(c);
    }
  }

  /** The bytes accepted as text are exactly those that write some characters. */
  lemma Utf8Meaning(s: seq<byte>)
    ensures IsUtf8(s) <==> exists chars: seq<Scalar> :: s == TextBytes(chars)
  {
    if IsUtf8(s) {
      var chars := Utf8IsText(s);
    } else if chars: seq<Scalar> :| s == TextBytes(chars) {
      TextIsUtf8(chars);
    }
  }

  type Text = s: seq<byte> | IsUtf8(s) witness []
}

/** The text form of a secret key: a fixed prefix, 64 lower-case hex digits and a newline. */
module SecretKeyText {
  import opened Bytes

  type SecretKey = key: seq<byte> | |key| == 32 witness seq(32, i => 0)

  type Nibble = n: int | 0 <= n < 16

  datatype DecodeError = BadPrefix | BadLength | BadHex

  const PREFIX: seq<byte> := Ascii("iroh-secret-key-v1:")
  const HEX_LEN: nat := 64
  const NEWLINE: byte := 10

  function HexChar(nibble: Nibble): byte {
    if nibble < 10 then 48 + nibble else 97 + (nibble - 10)
  }

  function DecodeHexNibble(b: byte): Option<Nibble> {
    if 48 <= b <= 57 then Some(b - 48)
    else if 97 <= b <= 102 then Some(b - 97 + 10)
    else None
  }

  function HexOf(bytes: seq<byte>): (hex: seq<byte>)
    ensures |hex| == 2 * |bytes|
  {
    if bytes == [] then [] else [HexChar(bytes[0] / 16), HexChar(bytes[0] % 16)] + HexOf(bytes[1..])
  }

  function Encoded(key: SecretKey): seq<byte> {
    (PREFIX + HexOf(key)) + [NEWLINE]
  }

  method EncodeSecretKey(key: SecretKey) returns (encoded: seq<byte>)
    ensures encoded == Encoded(key)
  {
    encoded := PREFIX;
    for i := 0 to |key|
      invariant encoded + HexOf(key[i..]) == PREFIX + HexOf(key)
    {
      ghost var before := encoded;
      encoded := encoded + [HexChar(key[i] / 16)];
      encoded := encoded + [HexChar(key[i] % 16)];
      assert key[i..][1..] == key[i + 1..];
      assert before + HexOf(key[i..]) == encoded + HexOf(key[i + 1..]);
    }
    assert encoded + [] == encoded;
    encoded := encoded + [NEWLINE];
  }

  function FromNibbles(high: Nibble, low: Nibble): byte {
    high * 16 + low
  }

  function Behind(front: seq<byte>, rest: Option<seq<byte>>): Option<seq<byte>> {
    if rest.None? then None else Some(front + rest.value)
  }

  /** The bytes written as those digits, if they all are digits. */
  function Unhex(hex: seq<byte>): Option<seq<byte>>
    requires |hex| % 2 == 0
  {
    if hex == [] then Some([])
    else
      var high, low := DecodeHexNibble(hex[0]), DecodeHexNibble(hex[1]);
      if high.None? || low.None? then None
      else Behind([FromNibbles(high.value, low.value)], Unhex(hex[2..]))
  }

  lemma BehindNothing(rest: Option<seq<byte>>)
    ensures Behind([], rest) == rest
  {
    if rest.Some? {
      assert [] + rest.value == rest.value;
    }
  }

  /** One more byte of the digits read behind the bytes already read. */
  lemma UnhexStep(done: seq<byte>, hex: seq<byte>)
    requires |hex| % 2 == 0 && hex != []
    ensures Behind(done, Unhex(hex)) ==
              if DecodeHexNibble(hex[0]).None? || DecodeHexNibble(hex[1]).None? then None
              else Behind(done + [FromNibbles(DecodeHexNibble(hex[0]).value, DecodeHexNibble(hex[1]).value)],
                          Unhex(hex[2..]))
  {
    if DecodeHexNibble(hex[0]).Some? && DecodeHexNibble(hex[1]).Some? && Unhex(hex[2..]).Some? {
      Regroup(done, [FromNibbles(DecodeHexNibble(hex[0]).value, DecodeHexNibble(hex[1]).value)], Unhex(hex[2..]).value);
    }
  }

  /** Keys are written and read with lower-case digits only. */
  lemma HexCharMeaning(nibble: Nibble, b: byte)
    ensures HexChar(nibble) == "0123456789abcdef"[nibble] as int
    ensures DecodeHexNibble(b) == Some(nibble) <==> b == "0123456789abcdef"[nibble] as int
  {
  }

  lemma NibbleMeaning(b: byte, nibble: Nibble)
    ensures b == HexChar(nibble) <==> DecodeHexNibble(b) == Some(nibble)
  {
  }

  lemma DigitMeaning(first: byte, second: byte, b: byte)
    ensures (first == HexChar(b / 16) && second == HexChar(b % 16)) <==>
              DecodeHexNibble(first).Some? && DecodeHexNibble(second).Some?
              && FromNibbles(DecodeHexNibble(first).value, DecodeHexNibble(second).value) == b
  {
    var high, low := b / 16, b % 16;
    assert b == FromNibbles(high, low);
    NibbleMeaning(first, high);
    NibbleMeaning(second, low);
  }

  /** Digits are read as exactly the bytes they are written for. */
  lemma {:induction false} UnhexMeaning(hex: seq<byte>, bytes: seq<byte>)
    requires |hex| % 2 == 0
    ensures Unhex(hex) == Some(bytes) <==> hex == HexOf(bytes)
  {
    if bytes == [] {
    } else if hex != [] {
      UnhexMeaning(hex[2..], bytes[1..]);
      DigitMeaning(hex[0], hex[1], bytes[0]);
      assert hex == [hex[0], hex[1]] + hex[2..];
      assert bytes == [bytes[0]] + bytes[1..];
      assert HexOf(bytes)[2..] == HexOf(bytes[1..]);
    }
  }

  predicate IsWhite(b: byte) {
    b == 32 || 9 <= b <= 13
  }

  function TrimStart(s: seq<byte>): seq<byte> {
    if s != [] && IsWhite(s[0]) then TrimStart(s[1..]) else s
  }

  function TrimEnd(s: seq<byte>): seq<byte> {
    if s != [] && IsWhite(s[|s| - 1]) then TrimEnd(s[..|s| - 1]) else s
  }

  function Trim(s: seq<byte>): seq<byte> {
    TrimEnd(TrimStart(s))
  }

  /** Blank, tab, line feed, vertical tab, form feed or carriage return. */
  ghost predicate IsSpace(b: byte) {
    b in [32, 9, 10, 11, 12, 13]
  }

  ghost predicate AllSpace(s: seq<byte>) {
    forall i :: 0 <= i < |s| ==> IsSpace(s[i])
  }

  lemma {:induction false} TrimStartMeaning(s: seq<byte>) returns (n: nat)
    ensures n <= |s| && TrimStart(s) == s[n..] && AllSpace(s[..n])
    ensures n < |s| ==> !IsSpace(s[n])
    decreases |s|
  {
    n := 0;
    if s != [] && IsWhite(s[0]) {
      n := TrimStartMeaning(s[1..]);
      assert s[..n + 1] == [s[0]] + s[1..][..n] && s[1..][n..] == s[n + 1..];
      n := n + 1;
    }
  }

  lemma {:induction false} TrimEndMeaning(s: seq<byte>) returns (n: nat)
    ensures n <= |s| && TrimEnd(s) == s[..n] && AllSpace(s[n..])
    ensures n > 0 ==> !IsSpace(s[n - 1])
    decreases |s|
  {
    n := |s|;
    if s != [] && IsWhite(s[|s| - 1]) {
      n := TrimEndMeaning(s[..|s| - 1]);
      assert s[n..] == s[..|s| - 1][n..] + [s[|s| - 1]];
    }
  }

  /** Trimming cuts white space off both ends and leaves none there. */
  lemma TrimMeaning(s: seq<byte>) returns (i: nat, j: nat)
    ensures i <= j <= |s| && Trim(s) == s[i..j] && AllSpace(s[..i]) && AllSpace(s[j..])
    ensures i < j ==> !IsSpace(s[i]) && !IsSpace(s[j - 1])
  {
    i := TrimStartMeaning(s);
    var n := TrimEndMeaning(s[i..]);
    j := i + n;
    assert s[i..][..n] == s[i..j] && s[i..][n..] == s[j..];
  }

  /** The key in a file with those contents. */
  function Decode(contents: seq<byte>): Result<SecretKey, DecodeError>
  {
    var trimmed := Trim(contents);
    if !(PREFIX <= trimmed) then Err(BadPrefix)
    else if |trimmed[|PREFIX|..]| != HEX_LEN then Err(BadLength)
    else
      match Unhex(trimmed[|PREFIX|..])
      case None => Err(BadHex)
      case Some(bytes) => UnhexMeaning(trimmed[|PREFIX|..], bytes); Ok(bytes)
  }

  method DecodeSecretKey(contents: seq<byte>) returns (key: Result<SecretKey, DecodeError>)
    ensures key == Decode(contents)
  {
    var trimmed := Trim(contents);
    if !(PREFIX <= trimmed) {
      return Err(BadPrefix);
    }
    var hex := trimmed[|PREFIX|..];
    if |hex| != HEX_LEN {
      return Err(BadLength);
    }
    var bytes := new byte[32](i => 0);
    BehindNothing(Unhex(hex));
    assert hex[0..] == hex && bytes[..0] == [];
    for i := 0 to 32
      invariant Unhex(hex) == Behind(bytes[..i], Unhex(hex[2 * i..]))
    {
      UnhexStep(bytes[..i], hex[2 * i..]);
      assert hex[2 * i..][2..] == hex[2 * (i + 1)..];
      ghost var done := bytes[..i];
      var high := DecodeHexNibble(hex[2 * i]);
      var low := DecodeHexNibble(hex[2 * i + 1]);
      if high.None? || low.None? {
        return Err(BadHex);
      }
      bytes[i] := FromNibbles(high.value, low.value);
      assert bytes[..i + 1] == done + [bytes[i]];
    }
    assert hex[64..] == [] && bytes[..32] + [] == bytes[..];
    return Ok(bytes[..]);
  }

  /** A file holds a key exactly when, blanks around it aside, it is that key's prefix and digits. */
  lemma DecodeMeaning(contents: seq<byte>, key: SecretKey)
    ensures Decode(contents) == Ok(key) <==> Trim(contents) == PREFIX + HexOf(key)
  {
    var trimmed := Trim(contents);
    if PREFIX <= trimmed {
      assert trimmed == PREFIX + trimmed[|PREFIX|..];
      if |trimmed[|PREFIX|..]| == HEX_LEN {
        UnhexMeaning(trimmed[|PREFIX|..], key);
      }
    }
    if trimmed == PREFIX + HexOf(key) {
      assert trimmed[|PREFIX|..] == HexOf(key);
    }
  }

  /** A file that holds no key is refused for the first thing that is wrong: prefix, length, digits. */
  lemma DecodeErrors(contents: seq<byte>)
    ensures var trimmed := Trim(contents);
            match Decode(contents)
            case Ok(_) => true
            case Err(BadPrefix) => !(Ascii("iroh-secret-key-v1:") <= trimmed)
            case Err(BadLength) => Ascii("iroh-secret-key-v1:") <= trimmed && |trimmed| != 83
            case Err(BadHex) =>
              && Ascii("iroh-secret-key-v1:") <= trimmed && |trimmed| == 83
              && exists i :: 19 <= i < 83 && DecodeHexNibble(trimmed[i]).None?
  {
    if Decode(contents) == Err(BadHex) {
      var i := BadDigit(Trim(contents)[19..]);
      assert Trim(contents)[19..][i] == Trim(contents)[19 + i];
    }
  }

  lemma {:induction false} BadDigit(hex: seq<byte>) returns (i: nat)
    requires |hex| % 2 == 0 && Unhex(hex).None?
    ensures i < |hex| && DecodeHexNibble(hex[i]).None?
  {
    if DecodeHexNibble(hex[0]).None? {
      i := 0;
    } else if DecodeHexNibble(hex[1]).None? {
      i := 1;
    } else {
      i := BadDigit(hex[2..]);
      i := i + 2;
    }
  }

  lemma {:induction false} HexOfAt(bytes: seq<byte>, i: nat)
    requires i < |bytes|
    ensures HexOf(bytes)[2 * i] == "0123456789abcdef"[bytes[i] / 16] as int
    ensures HexOf(bytes)[2 * i + 1] == "0123456789abcdef"[bytes[i] % 16] as int
  {
    if i > 0 {
      HexOfAt(bytes[1..], i - 1);
    }
  }

  /** What stands in the file: the prefix, two lower-case digits a byte, a newline. */
  lemma EncodedMeaning(key: SecretKey, i: nat)
    requires i < 32
    ensures |Encoded(key)| == 84 && Ascii("iroh-secret-key-v1:") <= Encoded(key) && Encoded(key)[83] == '\n' as int
    ensures Encoded(key)[19 + 2 * i] == "0123456789abcdef"[key[i] / 16] as int
    ensures Encoded(key)[20 + 2 * i] == "0123456789abcdef"[key[i] % 16] as int
  {
    HexOfAt(key, i);
    assert Encoded(key)[19 + 2 * i] == HexOf(key)[2 * i] && Encoded(key)[20 + 2 * i] == HexOf(key)[2 * i + 1];
  }

  lemma {:induction false} HexIsNotWhite(bytes: seq<byte>)
    ensures forall i :: 0 <= i < |HexOf(bytes)| ==> !IsWhite(HexOf(bytes)[i])
  {
    if bytes != [] {
      HexIsNotWhite(bytes[1..]);
    }
  }

  /** Decoding inverts encoding for every key. */
  lemma DecodeInvertsEncode(key: SecretKey)
    ensures Decode(Encoded(key)) == Ok(key)
  {
    HexIsNotWhite(key);
    var body := PREFIX + HexOf(key);
    assert Encoded(key)[0] == PREFIX[0] == 105;
    assert TrimStart(Encoded(key)) == Encoded(key);
    assert Encoded(key)[..|body|] == body;
    assert TrimEnd(body) == body;
    DecodeMeaning(Encoded(key), key);
  }

  /** Different keys have different texts. */
  lemma EncodedIsInjective(a: SecretKey, b: SecretKey)
    requires Encoded(a) == Encoded(b)
    ensures a == b
  {
    DecodeInvertsEncode(a);
    DecodeInvertsEncode(b);
  }
}

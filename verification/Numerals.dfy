/** Unsigned numerals in base ten or sixteen, as printed in response heads and chunk sizes. */
module Numerals {
  import opened Bytes

  type Base = b: nat | b == 10 || b == 16 witness 10

  function Digit(d: nat): byte
    requires d < 16
  {
    if d < 10 then 48 + d else 87 + d
  }

  function DigitValue(b: byte): Option<nat>
  {
    if 48 <= b <= 57 then Some(b - 48)
    else if 97 <= b <= 102 then Some(b - 87)
    else if 65 <= b <= 70 then Some(b - 55)
    else None
  }

  /** The shortest numeral of `n`; base sixteen uses lower-case letters. */
  function Numeral(n: nat, base: Base): (digits: seq<byte>)
    ensures digits != []
    decreases n
  {
    if n < base then [Digit(n)] else Numeral(n / base, base) + [Digit(n % base)]
  }

  function DigitsValue(digits: seq<byte>, base: Base): Option<nat>
  {
    if digits == [] then Some(0)
    else
      var high, low := DigitsValue(digits[..|digits| - 1], base), DigitValue(digits[|digits| - 1]);
      if high.None? || low.None? || low.value >= base then None
      else Some(high.value * base + low.value)
  }

  /** Reading a numeral; at least one digit is required. */
  function ReadNumeral(digits: seq<byte>, base: Base): Option<nat> {
    if digits == [] then None else DigitsValue(digits, base)
  }

  /** Digits are the usual ones: letters are written lower-case and read in either case. */
  lemma DigitMeaning(d: nat, b: byte)
    requires d < 16
    ensures Digit(d) == "0123456789abcdef"[d] as int
    ensures DigitValue(b) == Some(d) <==> b == "0123456789abcdef"[d] as int || b == "0123456789ABCDEF"[d] as int
    ensures DigitValue(b).Some? ==> DigitValue(b).value < 16
  {
  }

  lemma DigitRoundTrip(d: nat)
    requires d < 16
    ensures DigitValue(Digit(d)) == Some(d)
  {
  }

  lemma {:induction false} NumeralRoundTrip(n: nat, base: Base)
    ensures ReadNumeral(Numeral(n, base), base) == Some(n)
    decreases n
  {
    if n >= base {
      NumeralRoundTrip(n / base, base);
      var digits := Numeral(n, base);
      assert digits[..|digits| - 1] == Numeral(n / base, base) && digits[|digits| - 1] == Digit(n % base);
      DigitRoundTrip(n % base);
      assert n == (n / base) * base + n % base;
    } else {
      assert Numeral(n, base)[..0] == [];
      assert DigitsValue([], base) == Some(0);
      DigitRoundTrip(n);
    }
  }

  /** A numeral is made of digits: no line ends, colons or semicolons. */
  lemma {:induction false} NumeralIsDigits(n: nat, base: Base, b: byte)
    requires b in Numeral(n, base)
    ensures DigitValue(b).Some?
    decreases n
  {
    if n >= base && b in Numeral(n / base, base) {
      NumeralIsDigits(n / base, base, b);
    }
  }
}

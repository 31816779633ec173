/** Decimal and hexadecimal numerals in ASCII. */
module Numerals {
  import opened Bytes
  import opened Wrappers

  predicate IsDigit(b: Byte) {
    48 <= b <= 57
  }

  function Digit(b: Byte): (n: nat)
    requires IsDigit(b)
    ensures n <= 9
  {
    (b as nat) - 48
  }

  /** The digit of value n: 0 to 9, then a to f. */
  function DigitByte(n: nat): Byte
    requires n < 16
  {
    if n < 10 then (48 + n) as Byte else (87 + n) as Byte
  }

  /** The value of a hexadecimal digit of either case. */
  function HexDigit(b: Byte): (n: Option<nat>)
    ensures n.Some? ==> n.value < 16
  {
    if 48 <= b <= 57 then Some((b as nat) - 48)
    else if 97 <= b <= 102 then Some((b as nat) - 87)
    else if 65 <= b <= 70 then Some((b as nat) - 55)
    else None
  }

  lemma DigitRoundTrip(n: nat)
    requires n < 16
    ensures HexDigit(DigitByte(n)) == Some(n)
    ensures n < 10 ==> IsDigit(DigitByte(n)) && Digit(DigitByte(n)) == n
    ensures IsLowerHex(DigitByte(n))
  {
    ByteRoundTrip(if n < 10 then 48 + n else 87 + n);
    var b := DigitByte(n);
    assert b as nat == if n < 10 then 48 + n else 87 + n;
  }

  function Decimal(n: nat): (s: seq<Byte>)
    ensures s != []
    decreases n
  {
    if n < 10 then [DigitByte(n)] else Decimal(n / 10) + [DigitByte(n % 10)]
  }

  predicate AllDigits(s: seq<Byte>) {
    forall i :: 0 <= i < |s| ==> IsDigit(s[i])
  }

  function DecimalValue(s: seq<Byte>): nat
    requires AllDigits(s)
  {
    if s == [] then 0 else 10 * DecimalValue(s[..|s| - 1]) + Digit(s[|s| - 1])
  }

  lemma {:induction false} DecimalRoundTrip(n: nat)
    ensures AllDigits(Decimal(n)) && DecimalValue(Decimal(n)) == n
    decreases n
  {
    hide DigitByte;
    DigitRoundTrip(n % 10);
    var s := Decimal(n);
    if n < 10 {
      assert s[..0] == [];
    } else {
      DecimalRoundTrip(n / 10);
      assert s[..|s| - 1] == Decimal(n / 10);
    }
  }

  function Hexadecimal(n: nat): (s: seq<Byte>)
    ensures s != []
    decreases n
  {
    if n < 16 then [DigitByte(n)] else Hexadecimal(n / 16) + [DigitByte(n % 16)]
  }

  function HexValue(s: seq<Byte>): Option<nat> {
    if s == [] then Some(0)
    else
      match HexValue(s[..|s| - 1])
      case None => None
      case Some(high) =>
        match HexDigit(s[|s| - 1])
        case None => None
        case Some(low) => Some(16 * high + low)
  }

  /** A decimal digit, or a letter from a to f. */
  predicate IsLowerHex(b: Byte) {
    48 <= b <= 57 || 97 <= b <= 102
  }

  predicate OnOneLine(s: seq<Byte>) {
    forall i :: 0 <= i < |s| ==> s[i] != 13 && s[i] != 10
  }

  lemma {:induction false} HexRoundTrip(n: nat)
    ensures HexValue(Hexadecimal(n)) == Some(n)
    ensures forall i :: 0 <= i < |Hexadecimal(n)| ==> IsLowerHex(Hexadecimal(n)[i])
    decreases n
  {
    hide DigitByte;
    hide HexDigit;
    DigitRoundTrip(n % 16);
    var s := Hexadecimal(n);
    if n < 16 {
      assert s[..0] == [];
    } else {
      HexRoundTrip(n / 16);
      assert s[..|s| - 1] == Hexadecimal(n / 16);
    }
  }
  /** The digit of value n as it is written. */
  lemma DigitText(n: nat)
    requires n < 16
    ensures (DigitByte(n) as int) as char == "0123456789abcdef"[n]
  {
    ByteRoundTrip(if n < 10 then 48 + n else 87 + n);
    assert DigitByte(n) as int == if n < 10 then 48 + n else 87 + n;
  }

  /** A hexadecimal numeral with any of its letters written as capitals. */
  predicate SameNumeral(s: seq<Byte>, t: seq<Byte>) {
    |s| == |t| && forall i :: 0 <= i < |s| ==> s[i] == t[i] || (97 <= t[i] <= 102 && s[i] == t[i] - 32)
  }

  lemma CapitalDigit(a: Byte, b: Byte)
    requires a == b || (97 <= b <= 102 && a == b - 32)
    ensures HexDigit(a) == HexDigit(b)
  {
    if a != b {
      assert 65 <= a <= 70 && b == a + 32;
      assert b as nat == a as nat + 32;
    }
  }

  lemma {:induction false} CapitalsRead(s: seq<Byte>, t: seq<Byte>)
    requires SameNumeral(s, t)
    ensures HexValue(s) == HexValue(t)
    decreases |s|
  {
    hide HexDigit;
    if s != [] {
      CapitalDigit(s[|s| - 1], t[|t| - 1]);
      CapitalsRead(s[..|s| - 1], t[..|t| - 1]);
    }
  }
}

/**
 * Hexadecimal rendering of bytes: the Arduino `String(b, HEX)` constructor,
 * the in-place `toUpperCase()`, printf's `%02X`, and a decoder that inverts
 * them.
 */
module Hex {
  import opened Common

  /** The upper-case digit of a nibble, as printf's `%X` writes it. */
  function UpperDigit(n: int): ByteChar
    requires 0 <= n < 16
  {
    if n < 10 then ('0' as int + n) as char else ('A' as int + n - 10) as char
  }

  /** The lower-case digit of a nibble, as the Arduino core's `utoa` writes it. */
  function LowerDigit(n: int): ByteChar
    requires 0 <= n < 16
  {
    if n < 10 then ('0' as int + n) as char else ('a' as int + n - 10) as char
  }

  /** `String(b, HEX)`: lower-case hexadecimal without leading zeros. */
  function ArduinoHex(b: Byte): ByteString
  {
    if b < 0x10 then [LowerDigit(b)] else [LowerDigit(b / 16), LowerDigit(b % 16)]
  }

  /** The canonical rendering of one byte: two upper-case hex digits, zero-padded. */
  function HexPair(b: Byte): ByteString
  {
    [UpperDigit(b / 16), UpperDigit(b % 16)]
  }

  predicate IsUpperHexDigit(c: char)
  {
    '0' <= c <= '9' || 'A' <= c <= 'F'
  }

  /** The C-locale `toupper` on one character. */
  function UpperChar(c: ByteChar): ByteChar
  {
    if 'a' <= c <= 'z' then (c as int - 32) as char else c
  }

  /** `String::toUpperCase()`: `toupper` applied to every character. */
  function ToUpper(s: ByteString): (r: ByteString)
    ensures |r| == |s|
  {
    if s == [] then [] else [UpperChar(s[0])] + ToUpper(s[1..])
  }

  /** The value of a hexadecimal digit of either case. */
  function DigitValue(c: char): (v: Option<int>)
    ensures v.Some? <==> IsUpperHexDigit(c) || 'a' <= c <= 'f'
    ensures v.Some? ==> 0 <= v.value < 16
  {
    if '0' <= c <= '9' then Some(c as int - '0' as int)
    else if 'A' <= c <= 'F' then Some(c as int - 'A' as int + 10)
    else if 'a' <= c <= 'f' then Some(c as int - 'a' as int + 10)
    else None
  }

  /** Reads a byte back from two hexadecimal digits of either case. */
  function DecodePair(hi: char, lo: char): Option<Byte>
  {
    match (DigitValue(hi), DigitValue(lo))
    case (Some(h), Some(l)) => Some(16 * h + l)
    case _ => None
  }

  lemma {:induction false} ToUpperAppend(a: ByteString, b: ByteString)
    ensures ToUpper(a + b) == ToUpper(a) + ToUpper(b)
  {
    if a == [] {
      assert a + b == b;
    } else {
      assert (a + b)[0] == a[0];
      assert (a + b)[1..] == a[1..] + b;
      ToUpperAppend(a[1..], b);
    }
  }

  /** Zero-padding `String(b, HEX)` and upper-casing it gives the canonical pair. */
  lemma PaddedArduinoHex(b: Byte)
    ensures ToUpper((if b < 0x10 then "0" else "") + ArduinoHex(b)) == HexPair(b)
  {
    var raw: ByteString := (if b < 0x10 then "0" else "") + ArduinoHex(b);
    assert |raw| == 2;
    if b < 0x10 {
      assert raw[1] == LowerDigit(b % 16);
    } else {
      assert raw[0] == LowerDigit(b / 16);
      assert raw[1] == LowerDigit(b % 16);
    }
    assert ToUpper(raw)[0] == HexPair(b)[0];
    assert ToUpper(raw)[1] == HexPair(b)[1];
  }

  /** Appending a zero-padded `String(b, HEX)` and upper-casing appends the canonical pair. */
  lemma AppendPaddedHex(before: ByteString, b: Byte)
    ensures ToUpper(before + ((if b < 0x10 then "0" else "") + ArduinoHex(b))) == ToUpper(before) + HexPair(b)
  {
    ToUpperAppend(before, (if b < 0x10 then "0" else "") + ArduinoHex(b));
    PaddedArduinoHex(b);
  }

  /** Each byte renders as exactly two upper-case digits that decode back to it. */
  lemma HexPairRoundTrip(b: Byte)
    ensures |HexPair(b)| == 2
    ensures IsUpperHexDigit(HexPair(b)[0]) && IsUpperHexDigit(HexPair(b)[1])
    ensures DecodePair(HexPair(b)[0], HexPair(b)[1]) == Some(b)
  {
    assert DigitValue(UpperDigit(b / 16)) == Some(b / 16);
    assert DigitValue(UpperDigit(b % 16)) == Some(b % 16);
  }
}

/** Two-digit upper-case hexadecimal rendering of a byte, as Rust's `{:02X}`
    prints a `u8`, together with the parser that inverts it. */
module Hex {
  import opened Wrappers

  /** One byte of a value's memory image. */
  type Byte = b: int | 0 <= b < 256

  /** The value of one hexadecimal digit. */
  type Nibble = n: int | 0 <= n < 16

  predicate IsUpperHexDigit(c: char) {
    ('0' <= c <= '9') || ('A' <= c <= 'F')
  }

  /** The digit `{:X}` prints for a nibble; never a lower-case letter. */
  function HexDigit(n: Nibble): (c: char)
    ensures IsUpperHexDigit(c)
  {
    if n < 10 then ('0' as int + n) as char else ('A' as int + (n - 10)) as char
  }

  /** The value of an upper-case hexadecimal digit; lower-case letters and
      every other character are rejected. */
  function DigitValue(c: char): (r: Option<Nibble>)
    ensures r.Some? <==> IsUpperHexDigit(c)
    ensures r.Some? ==> HexDigit(r.value) == c
  {
    if '0' <= c <= '9' then Some(c as int - '0' as int)
    else if 'A' <= c <= 'F' then Some(c as int - 'A' as int + 10)
    else None
  }

  /** `format!("{:02X}", b)` for a `u8`: always exactly two upper-case
      digits, the high nibble first. */
  function FormatByte(b: Byte): (s: string)
    ensures |s| == 2
    ensures IsUpperHexDigit(s[0]) && IsUpperHexDigit(s[1])
    ensures DigitValue(s[0]).value as int * 16 + DigitValue(s[1]).value as int == b
  {
    [HexDigit(b / 16), HexDigit(b % 16)]
  }

  /** Reads back two upper-case hexadecimal digits as a byte. */
  function ParseByte(s: string): (r: Option<Byte>)
    ensures r.Some? <==> |s| == 2 && IsUpperHexDigit(s[0]) && IsUpperHexDigit(s[1])
  {
    if |s| != 2 then None
    else match (DigitValue(s[0]), DigitValue(s[1]))
      case (Some(hi), Some(lo)) => Some(hi as int * 16 + lo as int)
      case _ => None
  }

  /** Parsing undoes formatting. */
  lemma ParseFormatByte(b: Byte)
    ensures ParseByte(FormatByte(b)) == Some(b)
  {
  }

  /** Formatting undoes parsing: the two-digit upper-case form is the only
      spelling the parser accepts for a byte. */
  lemma FormatParseByte(s: string, b: Byte)
    requires ParseByte(s) == Some(b)
    ensures FormatByte(b) == s
  {
    var hi := DigitValue(s[0]).value;
    var lo := DigitValue(s[1]).value;
    assert b == hi as int * 16 + lo as int;
    assert b / 16 == hi && b % 16 == lo;
  }

  /** Distinct bytes are printed differently. */
  lemma FormatByteInjective(a: Byte, b: Byte)
    requires FormatByte(a) == FormatByte(b)
    ensures a == b
  {
    ParseFormatByte(a);
    ParseFormatByte(b);
  }
}

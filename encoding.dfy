/**
 * Byte-level encodings the code relies on: UTF-8 (`str::as_bytes`, `str::len`),
 * lowercase hex (`format!("{:x}", digest)`), decimal (`format!("{}", n)`),
 * zero-padded decimal (`format!("{:05}", n)`), and `str::parse` for `u64` and `i32`.
 */
module Encoding {
  import opened Wrappers
  import opened Text

  newtype byte = x: int | 0 <= x < 256
  type Bytes = seq<byte>

  const U64_LIMIT: nat := 0x1_0000_0000_0000_0000
  const I32_MIN: int := -0x8000_0000
  const I32_MAX: int := 0x7FFF_FFFF

  /** UTF-8 encoding of one Unicode scalar value. */
  function Utf8Char(c: char): (r: Bytes)
    ensures 1 <= |r| <= 4
    ensures |r| == 1 <==> IsAscii(c)
    ensures IsAscii(c) ==> r == [c as int as byte]
  {
    var n := c as int;
    if n < 0x80 then [n as byte]
    else if n < 0x800 then [(0xC0 + n / 0x40) as byte, (0x80 + n % 0x40) as byte]
    else if n < 0x1_0000 then
      [(0xE0 + n / 0x1000) as byte, (0x80 + (n / 0x40) % 0x40) as byte, (0x80 + n % 0x40) as byte]
    else
      [(0xF0 + n / 0x4_0000) as byte, (0x80 + (n / 0x1000) % 0x40) as byte,
       (0x80 + (n / 0x40) % 0x40) as byte, (0x80 + n % 0x40) as byte]
  }

  /** `str::as_bytes`. */
  function Utf8(s: string): (r: Bytes)
    ensures |r| >= |s|
  {
    if |s| == 0 then [] else Utf8Char(s[0]) + Utf8(s[1..])
  }

  /** `str::len` counts UTF-8 bytes; on ASCII text it is the character count. */
  lemma {:induction false} Utf8LengthOfAscii(s: string)
    requires forall i :: 0 <= i < |s| ==> IsAscii(s[i])
    ensures |Utf8(s)| == |s|
  {
    if |s| > 0 {
      Utf8LengthOfAscii(s[1..]);
    }
  }

  lemma {:induction false} Utf8LengthOfNonAscii(s: string)
    requires exists i :: 0 <= i < |s| && !IsAscii(s[i])
    ensures |Utf8(s)| > |s|
  {
    if IsAscii(s[0]) {
      var i :| 0 <= i < |s| && !IsAscii(s[i]);
      assert s[1..][i - 1] == s[i];
      Utf8LengthOfNonAscii(s[1..]);
    }
  }

  lemma Utf8Append(a: string, b: string)
    ensures Utf8(a + b) == Utf8(a) + Utf8(b)
  {
    if |a| > 0 {
      assert (a + b)[1..] == a[1..] + b;
      Utf8Append(a[1..], b);
    } else {
      assert a + b == b;
    }
  }

  predicate IsLowerHexDigit(c: char) {
    IsAsciiDigit(c) || ('a' <= c <= 'f')
  }

  function HexDigit(n: nat): (c: char)
    requires n < 16
    ensures IsLowerHexDigit(c)
  {
    if n < 10 then ('0' as int + n) as char else ('a' as int + n - 10) as char
  }

  function HexDigitValue(c: char): (n: nat)
    requires IsLowerHexDigit(c)
    ensures n < 16 && HexDigit(n) == c
  {
    if IsAsciiDigit(c) then c as int - '0' as int else c as int - 'a' as int + 10
  }

  /** `format!("{:x}", digest)`: two lowercase hex digits per byte, high nibble first. */
  function HexLower(d: Bytes): (r: string)
    ensures |r| == 2 * |d|
    ensures forall i :: 0 <= i < |r| ==> IsLowerHexDigit(r[i])
  {
    if |d| == 0 then ""
    else [HexDigit(d[0] as int / 16), HexDigit(d[0] as int % 16)] + HexLower(d[1..])
  }

  /** The inverse of HexLower. */
  function DecodeHex(s: string): (r: Option<Bytes>)
    decreases |s|
  {
    if |s| == 0 then Some([])
    else if |s| == 1 || !IsLowerHexDigit(s[0]) || !IsLowerHexDigit(s[1]) then None
    else match DecodeHex(s[2..])
      case None => None
      case Some(rest) => Some([(HexDigitValue(s[0]) * 16 + HexDigitValue(s[1])) as byte] + rest)
  }

  /** Hex encoding loses nothing: distinct digests give distinct hex strings. */
  lemma {:induction false} HexRoundTrip(d: Bytes)
    ensures DecodeHex(HexLower(d)) == Some(d)
  {
    if |d| > 0 {
      var s := HexLower(d);
      assert s[2..] == HexLower(d[1..]);
      HexRoundTrip(d[1..]);
      assert HexDigitValue(s[0]) == d[0] as int / 16;
      assert HexDigitValue(s[1]) == d[0] as int % 16;
      assert d == [d[0]] + d[1..];
    }
  }

  lemma HexInjective(a: Bytes, b: Bytes)
    requires HexLower(a) == HexLower(b)
    ensures a == b
  {
    HexRoundTrip(a);
    HexRoundTrip(b);
  }

  function DigitChar(n: nat): (c: char)
    requires n < 10
    ensures IsAsciiDigit(c)
  {
    ('0' as int + n) as char
  }

  ghost predicate AllDigits(s: string) {
    forall i :: 0 <= i < |s| ==> IsAsciiDigit(s[i])
  }

  /** `format!("{}", n)` for an unsigned integer: no sign, no leading zeros. */
  function DecimalString(n: nat): (r: string)
    ensures |r| >= 1 && AllDigits(r)
    ensures |r| > 1 ==> r[0] != '0'
  {
    if n < 10 then [DigitChar(n)] else DecimalString(n / 10) + [DigitChar(n % 10)]
  }

  /** The value of a string of decimal digits, read most significant first. */
  function DigitsValue(s: string): nat
    requires AllDigits(s)
  {
    if |s| == 0 then 0 else DigitsValue(s[..|s| - 1]) * 10 + (s[|s| - 1] as int - '0' as int)
  }

  lemma {:induction false} DecimalRoundTrip(n: nat)
    ensures DigitsValue(DecimalString(n)) == n
  {
    if n >= 10 {
      var s := DecimalString(n);
      assert s[..|s| - 1] == DecimalString(n / 10);
      DecimalRoundTrip(n / 10);
    }
  }

  lemma {:induction false} LeadingZerosIgnored(z: string, s: string)
    requires forall i :: 0 <= i < |z| ==> z[i] == '0'
    requires AllDigits(s)
    ensures AllDigits(z + s) && DigitsValue(z + s) == DigitsValue(s)
    decreases |s|
  {
    if |s| == 0 {
      assert z + s == z;
      ZerosAreZero(z);
    } else {
      var t := z + s;
      assert t[..|t| - 1] == z + s[..|s| - 1];
      LeadingZerosIgnored(z, s[..|s| - 1]);
    }
  }

  lemma {:induction false} ZerosAreZero(z: string)
    requires forall i :: 0 <= i < |z| ==> z[i] == '0'
    ensures AllDigits(z) && DigitsValue(z) == 0
  {
    if |z| > 0 {
      ZerosAreZero(z[..|z| - 1]);
    }
  }

  /** Digits of a `u64::from_str` input after the optional '+'. */
  function UnsignedDigits(s: string): string {
    if |s| > 0 && s[0] == '+' then s[1..] else s
  }

  /**
   * `str::parse::<u64>`: an optional '+', then at least one ASCII digit, and a
   * value below 2^64; anything else (a '-', a space, overflow) is an error.
   */
  function ParseU64(s: string): (r: Option<nat>)
    ensures r.Some? ==> r.value < U64_LIMIT
  {
    var digits := UnsignedDigits(s);
    if |digits| == 0 || !(forall i :: 0 <= i < |digits| ==> IsAsciiDigit(digits[i])) then None
    else if DigitsValue(digits) < U64_LIMIT then Some(DigitsValue(digits))
    else None
  }

  /** The decimal text of every `u64` parses back to it. */
  lemma DecimalParsesBack(n: nat)
    requires n < U64_LIMIT
    ensures ParseU64(DecimalString(n)) == Some(n)
  {
    DecimalRoundTrip(n);
  }

  /** `str::parse::<i32>`: an optional sign, then at least one digit, within i32. */
  function ParseI32(s: string): (r: Option<int>)
    ensures r.Some? ==> I32_MIN <= r.value <= I32_MAX
  {
    var negative := |s| > 0 && s[0] == '-';
    var digits := if |s| > 0 && (s[0] == '+' || s[0] == '-') then s[1..] else s;
    if |digits| == 0 || !(forall i :: 0 <= i < |digits| ==> IsAsciiDigit(digits[i])) then None
    else
      var value: int := DigitsValue(digits);
      var v := if negative then -value else value;
      if I32_MIN <= v <= I32_MAX then Some(v) else None
  }

  lemma I32ParsesBack(n: int)
    requires 0 <= n <= I32_MAX
    ensures ParseI32(DecimalString(n)) == Some(n)
  {
    DecimalRoundTrip(n);
  }

  function Zeros(k: nat): (z: string)
    ensures |z| == k && forall i :: 0 <= i < k ==> z[i] == '0'
  {
    if k == 0 then "" else Zeros(k - 1) + "0"
  }

  /** Left-pads `s` with '0' up to `width` characters. */
  function ZeroPad(s: string, width: nat): (r: string)
    ensures |r| >= width && |r| >= |s|
  {
    if |s| < width then Zeros(width - |s|) + s else s
  }

  /** `format!("{:05}", n)`: the sign counts toward the width and zeros go after it. */
  function Pad5(n: int): (r: string)
    ensures |r| >= 5
  {
    if n < 0 then "-" + ZeroPad(DecimalString(-n), 4) else ZeroPad(DecimalString(n), 5)
  }

  lemma PaddedValue(n: nat, width: nat)
    ensures AllDigits(ZeroPad(DecimalString(n), width))
    ensures DigitsValue(ZeroPad(DecimalString(n), width)) == n
  {
    DecimalRoundTrip(n);
    var d := DecimalString(n);
    if |d| < width {
      LeadingZerosIgnored(Zeros(width - |d|), d);
    }
  }

  lemma Pad5NonNegative(n: int)
    requires n >= 0
    ensures AllDigits(Pad5(n)) && DigitsValue(Pad5(n)) == n
  {
    PaddedValue(n, 5);
  }

  lemma Pad5Negative(n: int)
    requires n < 0
    ensures Pad5(n)[0] == '-' && AllDigits(Pad5(n)[1..]) && DigitsValue(Pad5(n)[1..]) == -n
  {
    PaddedValue(-n, 4);
    assert Pad5(n)[1..] == ZeroPad(DecimalString(-n), 4);
  }

  /** Zero-padding keeps distinct integers distinct. */
  lemma Pad5Injective(a: int, b: int)
    requires Pad5(a) == Pad5(b)
    ensures a == b
  {
    if a < 0 {
      Pad5Negative(a);
      if b < 0 {
        Pad5Negative(b);
      } else {
        Pad5NonNegative(b);
      }
    } else {
      Pad5NonNegative(a);
      if b < 0 {
        Pad5Negative(b);
      } else {
        Pad5NonNegative(b);
      }
    }
  }
}

/**
 * Number-to-text conversions used by the OTP code: `String(n)` for a
 * non-negative integer, and `byte.toString(16).padStart(2, '0')` joined over
 * a digest.
 */
module Digits {
  import opened Text

  // ---------------------------------------------------------------------
  // Decimal

  predicate IsDigit(c: char) { '0' <= c <= '9' }

  predicate AllDigits(s: string) {
    forall i :: 0 <= i < |s| ==> IsDigit(s[i])
  }

  function DigitChar(d: int): (c: char)
    requires 0 <= d < 10
    ensures IsDigit(c) && c as int - '0' as int == d
  {
    ('0' as int + d) as char
  }

  /** `String(n)` for a non-negative integer: decimal digits without leading zeros. */
  function DecimalString(n: nat): (s: string)
    ensures |s| >= 1 && AllDigits(s)
    ensures |s| > 1 ==> s[0] != '0'
    decreases n
  {
    if n < 10 then [DigitChar(n)] else DecimalString(n / 10) + [DigitChar(n % 10)]
  }

  /** The number a digit string denotes. */
  function DigitsValue(s: string): (v: nat)
    requires AllDigits(s)
  {
    if |s| == 0 then 0
    else DigitsValue(s[..|s| - 1]) * 10 + (s[|s| - 1] as int - '0' as int)
  }

  function Pow10(k: nat): (p: nat)
    ensures p >= 1
  {
    if k == 0 then 1 else 10 * Pow10(k - 1)
  }

  lemma {:induction false} DecimalStringValue(n: nat)
    ensures DigitsValue(DecimalString(n)) == n
    decreases n
  {
    if n >= 10 {
      var s := DecimalString(n);
      DecimalStringValue(n / 10);
      assert s[..|s| - 1] == DecimalString(n / 10);
    }
  }

  lemma {:induction false} DecimalStringLength(n: nat, k: nat)
    requires 1 <= k && n < Pow10(k)
    ensures |DecimalString(n)| <= k
    decreases n
  {
    if n >= 10 {
      assert k > 1;
      DecimalStringLength(n / 10, k - 1);
    }
  }

  lemma {:induction false} ZerosValue(z: string)
    requires forall i :: 0 <= i < |z| ==> z[i] == '0'
    ensures AllDigits(z) && DigitsValue(z) == 0
  {
    if |z| > 0 {
      ZerosValue(z[..|z| - 1]);
    }
  }

  /** Leading zeros do not change the value. */
  lemma {:induction false} LeadingZerosValue(z: string, s: string)
    requires forall i :: 0 <= i < |z| ==> z[i] == '0'
    requires AllDigits(s)
    ensures AllDigits(z + s) && DigitsValue(z + s) == DigitsValue(s)
    decreases |s|
  {
    if |s| == 0 {
      assert z + s == z;
      ZerosValue(z);
    } else {
      assert (z + s)[..|z + s| - 1] == z + s[..|s| - 1];
      LeadingZerosValue(z, s[..|s| - 1]);
    }
  }

  /** Digit strings of equal length and equal value are equal. */
  lemma {:induction false} DigitsValueInjective(a: string, b: string)
    requires AllDigits(a) && AllDigits(b) && |a| == |b|
    requires DigitsValue(a) == DigitsValue(b)
    ensures a == b
  {
    if |a| > 0 {
      var a' := a[..|a| - 1];
      var b' := b[..|b| - 1];
      var da := a[|a| - 1] as int - '0' as int;
      var db := b[|b| - 1] as int - '0' as int;
      assert DigitsValue(a') * 10 + da == DigitsValue(b') * 10 + db;
      assert da == db && DigitsValue(a') == DigitsValue(b');
      DigitsValueInjective(a', b');
      assert a == a' + [a[|a| - 1]] && b == b' + [b[|b| - 1]];
    }
  }

  // ---------------------------------------------------------------------
  // Lowercase hexadecimal

  predicate IsLowerHexDigit(c: char) { '0' <= c <= '9' || 'a' <= c <= 'f' }

  predicate IsLowerHex(s: string) {
    forall i :: 0 <= i < |s| ==> IsLowerHexDigit(s[i])
  }

  function HexDigit(d: int): (c: char)
    requires 0 <= d < 16
    ensures IsLowerHexDigit(c)
  {
    if d < 10 then ('0' as int + d) as char else ('a' as int + d - 10) as char
  }

  function HexDigitValue(c: char): (d: int)
    requires IsLowerHexDigit(c)
    ensures 0 <= d < 16 && HexDigit(d) == c
  {
    if c <= '9' then c as int - '0' as int else c as int - 'a' as int + 10
  }

  /** `b.toString(16)`: lowercase, without a leading zero. */
  function ByteToHex(b: byte): (s: string)
    ensures 1 <= |s| <= 2
  {
    if b < 16 then [HexDigit(b as int)] else [HexDigit(b as int / 16), HexDigit(b as int % 16)]
  }

  /** `b.toString(16).padStart(2, '0')`: always two lowercase digits, high nibble first. */
  function HexByte(b: byte): (s: string)
    ensures |s| == 2 && IsLowerHexDigit(s[0]) && IsLowerHexDigit(s[1])
    ensures HexDigitValue(s[0]) * 16 + HexDigitValue(s[1]) == b as int
  {
    PadStart(ByteToHex(b), 2, '0')
  }

  /** The hex digest text: two characters per byte, joined. */
  function HexEncode(bs: seq<byte>): (s: string)
    ensures |s| == 2 * |bs| && IsLowerHex(s)
  {
    if |bs| == 0 then "" else HexEncode(bs[..|bs| - 1]) + HexByte(bs[|bs| - 1])
  }

  /** The byte two hex digits denote, high nibble first. */
  function PairValue(c0: char, c1: char): (b: byte)
    requires IsLowerHexDigit(c0) && IsLowerHexDigit(c1)
    ensures b as int == HexDigitValue(c0) * 16 + HexDigitValue(c1)
  {
    (HexDigitValue(c0) * 16 + HexDigitValue(c1)) as byte
  }

  /** Reads back a lowercase hex text, two characters per byte. */
  function HexDecode(s: string): (bs: seq<byte>)
    requires |s| % 2 == 0 && IsLowerHex(s)
    ensures 2 * |bs| == |s|
  {
    if |s| == 0 then []
    else
      assert IsLowerHex(s[..|s| - 2]);
      HexDecode(s[..|s| - 2]) + [PairValue(s[|s| - 2], s[|s| - 1])]
  }

  lemma HexDecodeSnoc(t: string, c0: char, c1: char)
    requires |t| % 2 == 0 && IsLowerHex(t)
    requires IsLowerHexDigit(c0) && IsLowerHexDigit(c1)
    ensures IsLowerHex(t + [c0, c1])
    ensures HexDecode(t + [c0, c1]) == HexDecode(t) + [PairValue(c0, c1)]
  {
    var s := t + [c0, c1];
    assert IsLowerHex(s) by {
      forall i | 0 <= i < |s|
        ensures IsLowerHexDigit(s[i])
      {
        if i < |t| {
          assert s[i] == t[i];
        }
      }
    }
    assert s[..|s| - 2] == t;
    assert s[|s| - 2] == c0 && s[|s| - 1] == c1;
  }

  lemma {:induction false} HexRoundTrip(bs: seq<byte>)
    ensures HexDecode(HexEncode(bs)) == bs
  {
    if |bs| > 0 {
      var init := bs[..|bs| - 1];
      var last := bs[|bs| - 1];
      var h := HexByte(last);
      assert h == [h[0], h[1]];
      assert HexEncode(bs) == HexEncode(init) + h;
      HexDecodeSnoc(HexEncode(init), h[0], h[1]);
      assert PairValue(h[0], h[1]) == last;
      HexRoundTrip(init);
      assert bs == init + [last];
    }
  }

  /** Different digests give different hex texts. */
  lemma HexEncodeInjective(a: seq<byte>, b: seq<byte>)
    requires HexEncode(a) == HexEncode(b)
    ensures a == b
  {
    HexRoundTrip(a);
    HexRoundTrip(b);
  }
}

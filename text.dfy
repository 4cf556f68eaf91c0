/**
 * The string primitives the handlers rely on: UTF-8 encoding (`TextEncoder`),
 * UTF-8 decoding (`Buffer#toString('utf8')`), the Latin-1 view of bytes that
 * `String.fromCharCode(...bytes)` and `atob` produce, and the few string
 * methods the handlers call (`trim`, `toLowerCase`, `split`, `replace`,
 * `endsWith`, `padStart`, `padEnd`).
 *
 * Strings are sequences of Unicode scalar values; JavaScript's lone UTF-16
 * surrogates have no counterpart here.
 */
module Text {

  newtype byte = x: int | 0 <= x < 256

  predicate IsAscii(s: string) {
    forall i :: 0 <= i < |s| ==> s[i] as int < 128
  }

  // ---------------------------------------------------------------------
  // UTF-8, RFC 3629

  /** The UTF-8 encoding of one scalar value: 1 to 4 bytes. */
  function EncodeChar(c: char): (r: seq<byte>)
    ensures 1 <= |r| <= 4
    ensures |r| == 1 <==> c as int < 0x80
    ensures |r| == 1 ==> r[0] as int == c as int
  {
    var n := c as int;
    if n < 0x80 then [n as byte]
    else if n < 0x800 then [(0xC0 + n / 64) as byte, (0x80 + n % 64) as byte]
    else if n < 0x10000 then
      [(0xE0 + n / 4096) as byte, (0x80 + (n / 64) % 64) as byte, (0x80 + n % 64) as byte]
    else
      [(0xF0 + n / 262144) as byte, (0x80 + (n / 4096) % 64) as byte,
       (0x80 + (n / 64) % 64) as byte, (0x80 + n % 64) as byte]
  }

  /** `new TextEncoder().encode(s)`. */
  function Utf8Encode(s: string): (r: seq<byte>)
    ensures |r| >= |s|
    ensures IsAscii(s) ==> |r| == |s| && forall i :: 0 <= i < |s| ==> r[i] as int == s[i] as int
  {
    if |s| == 0 then [] else EncodeChar(s[0]) + Utf8Encode(s[1..])
  }

  predicate IsContinuation(b: byte) { 0x80 <= b < 0xC0 }

  /**
   * How many continuation bytes a lead byte announces, and the range its
   * first continuation byte must fall in (Table 3-7 of the Unicode
   * Standard, section 3.9); 0 for a byte that cannot start a sequence.
   * The narrowed ranges after E0, ED, F0 and F4 exclude overlong forms,
   * surrogates and values above U+10FFFF.
   */
  function LeadShape(b0: byte): (r: (nat, byte, byte))
    ensures r.0 <= 3 && 0x80 <= r.1 <= r.2 < 0xC0
    ensures r.0 == 0 <==> b0 < 0xC2 || b0 > 0xF4
  {
    if 0xC2 <= b0 < 0xE0 then (1, 0x80, 0xBF)
    else if b0 == 0xE0 then (2, 0xA0, 0xBF)
    else if b0 == 0xED then (2, 0x80, 0x9F)
    else if 0xE1 <= b0 < 0xF0 then (2, 0x80, 0xBF)
    else if b0 == 0xF0 then (3, 0x90, 0xBF)
    else if b0 == 0xF4 then (3, 0x80, 0x8F)
    else if 0xF1 <= b0 < 0xF4 then (3, 0x80, 0xBF)
    else (0, 0x80, 0xBF)
  }

  /** The scalar value of a well-formed three-byte sequence. */
  function Scalar3(b0: byte, b1: byte, b2: byte): char
    requires 0xE0 <= b0 < 0xF0 && IsContinuation(b1) && IsContinuation(b2)
    requires b0 == 0xE0 ==> b1 >= 0xA0
    requires b0 == 0xED ==> b1 <= 0x9F
  {
    var n := (b0 as int - 0xE0) * 4096 + (b1 as int - 0x80) * 64 + (b2 as int - 0x80);
    assert b0 == 0xED ==> n <= 0xD000 + 0x1F * 64 + 63;
    assert b0 > 0xED ==> n >= 0xE000;
    assert b0 < 0xED ==> n < 0xD000;
    n as char
  }

  /** The scalar value of a well-formed four-byte sequence. */
  function Scalar4(b0: byte, b1: byte, b2: byte, b3: byte): char
    requires 0xF0 <= b0 <= 0xF4 && IsContinuation(b1) && IsContinuation(b2) && IsContinuation(b3)
    requires b0 == 0xF0 ==> b1 >= 0x90
    requires b0 == 0xF4 ==> b1 <= 0x8F
  {
    var n := (b0 as int - 0xF0) * 262144 + (b1 as int - 0x80) * 4096 + (b2 as int - 0x80) * 64 + (b3 as int - 0x80);
    assert b0 < 0xF4 ==> n < 4 * 262144;
    assert b0 == 0xF4 ==> n <= 4 * 262144 + 15 * 4096 + 63 * 64 + 63;
    n as char
  }

  /**
   * Decodes the unit at the head of `b` and says how many bytes it took: a
   * well-formed sequence gives its scalar value, and a maximal ill-formed
   * subpart (a byte that cannot start a sequence, or a lead byte followed
   * by fewer valid continuation bytes than it announces) gives one U+FFFD.
   * The byte that breaks a sequence off is not consumed.
   */
  function DecodeOne(b: seq<byte>): (r: (char, nat))
    requires |b| > 0
    ensures 1 <= r.1 <= |b| && r.1 <= 4
    ensures forall i :: 1 <= i < r.1 ==> IsContinuation(b[i])
  {
    var b0 := b[0];
    var (need, lo, hi) := LeadShape(b0);
    if b0 < 0x80 then (b0 as int as char, 1)
    else if need == 0 || |b| < 2 || !(lo <= b[1] <= hi) then (0xFFFD as char, 1)
    else if need == 1 then (((b0 as int - 0xC0) * 64 + (b[1] as int - 0x80)) as char, 2)
    else if |b| < 3 || !IsContinuation(b[2]) then (0xFFFD as char, 2)
    else if need == 2 then (Scalar3(b0, b[1], b[2]), 3)
    else if |b| < 4 || !IsContinuation(b[3]) then (0xFFFD as char, 3)
    else (Scalar4(b0, b[1], b[2], b[3]), 4)
  }

  /** `Buffer.from(b).toString('utf8')`. */
  function Utf8Decode(b: seq<byte>): (s: string)
    ensures |s| <= |b|
    decreases |b|
  {
    if |b| == 0 then []
    else
      var (c, k) := DecodeOne(b);
      [c] + Utf8Decode(b[k..])
  }

  /**
   * A sequence cut short decodes to a single U+FFFD for the bytes it did
   * have, and the byte that cut it short is decoded on its own.
   */
  lemma TruncatedSequenceReplacedOnce()
    ensures Utf8Decode([0xE2, 0x82, 0x41]) == [0xFFFD as char, 'A']
    ensures Utf8Decode([0xE2, 0x82]) == [0xFFFD as char]
    ensures Utf8Decode([0xF0, 0x9F, 0x98]) == [0xFFFD as char]
    ensures Utf8Decode([0xED, 0xA0, 0x80]) == [0xFFFD as char, 0xFFFD as char, 0xFFFD as char]
  {
    var a: seq<byte> := [0xE2, 0x82, 0x41];
    assert a[2..] == [0x41];
    assert Utf8Decode(a[2..]) == ['A'];
    var e: seq<byte> := [0xED, 0xA0, 0x80];
    assert e[1..] == [0xA0, 0x80] && e[1..][1..] == [0x80] && e[1..][1..][1..] == [];
  }

  /** Splits `n` into its base-64 digits below the top one. */
  lemma Base64Digits(n: nat)
    ensures n / 4096 == (n / 64) / 64 && n / 262144 == (n / 4096) / 64
    ensures (n / 64) * 64 + n % 64 == n
    ensures (n / 4096) * 64 + (n / 64) % 64 == n / 64
    ensures (n / 262144) * 64 + (n / 4096) % 64 == n / 4096
  {
  }

  lemma DecodeOneEncoded2(c: char, rest: seq<byte>)
    requires 0x80 <= c as int < 0x800
    ensures DecodeOne(EncodeChar(c) + rest) == (c, 2)
  {
    var n := c as int;
    var b := EncodeChar(c) + rest;
    Base64Digits(n);
    assert b[0] as int == 0xC0 + n / 64 && b[1] as int == 0x80 + n % 64;
    assert (b[0] as int - 0xC0) * 64 + (b[1] as int - 0x80) == n;
  }

  lemma DecodeOneEncoded3(c: char, rest: seq<byte>)
    requires 0x800 <= c as int < 0x10000
    ensures DecodeOne(EncodeChar(c) + rest) == (c, 3)
  {
    var n := c as int;
    var b := EncodeChar(c) + rest;
    Base64Digits(n);
    var d0, d1, d2 := n / 4096, (n / 64) % 64, n % 64;
    assert b[0] as int == 0xE0 + d0 && b[1] as int == 0x80 + d1 && b[2] as int == 0x80 + d2;
    assert d0 * 4096 + d1 * 64 + d2 == n;
  }

  lemma DecodeOneEncoded4(c: char, rest: seq<byte>)
    requires 0x10000 <= c as int
    ensures DecodeOne(EncodeChar(c) + rest) == (c, 4)
  {
    var n := c as int;
    var b := EncodeChar(c) + rest;
    Base64Digits(n);
    var d0, d1, d2, d3 := n / 262144, (n / 4096) % 64, (n / 64) % 64, n % 64;
    assert b[0] as int == 0xF0 + d0 && b[1] as int == 0x80 + d1;
    assert b[2] as int == 0x80 + d2 && b[3] as int == 0x80 + d3;
    assert d0 * 262144 + d1 * 4096 + d2 * 64 + d3 == n;
  }

  lemma DecodeOneEncoded(c: char, rest: seq<byte>)
    ensures DecodeOne(EncodeChar(c) + rest) == (c, |EncodeChar(c)|)
  {
    var n := c as int;
    if n < 0x80 {
    } else if n < 0x800 {
      DecodeOneEncoded2(c, rest);
    } else if n < 0x10000 {
      DecodeOneEncoded3(c, rest);
    } else {
      DecodeOneEncoded4(c, rest);
    }
  }

  /** Decoding what `TextEncoder` produced gives back every string, ASCII or not. */
  lemma {:induction false} Utf8RoundTrip(s: string)
    ensures Utf8Decode(Utf8Encode(s)) == s
  {
    if |s| > 0 {
      var e := EncodeChar(s[0]);
      assert Utf8Encode(s) == e + Utf8Encode(s[1..]);
      DecodeOneEncoded(s[0], Utf8Encode(s[1..]));
      assert (e + Utf8Encode(s[1..]))[|e|..] == Utf8Encode(s[1..]);
      Utf8RoundTrip(s[1..]);
    }
  }

  // ---------------------------------------------------------------------
  // Latin-1: one character per byte

  /** `String.fromCharCode(...b)`, and the string `atob` returns for decoded bytes `b`. */
  function Latin1(b: seq<byte>): (s: string)
    ensures |s| == |b|
    ensures forall i :: 0 <= i < |b| ==> s[i] as int == b[i] as int
  {
    seq(|b|, i requires 0 <= i < |b| => b[i] as int as char)
  }

  predicate IsLatin1(s: string) {
    forall i :: 0 <= i < |s| ==> s[i] as int < 256
  }

  /** The bytes of a string whose characters are all below 256. */
  function Latin1Bytes(s: string): (b: seq<byte>)
    requires IsLatin1(s)
    ensures Latin1(b) == s
  {
    seq(|s|, i requires 0 <= i < |s| => s[i] as int as byte)
  }

  lemma Latin1BytesOfLatin1(b: seq<byte>)
    ensures IsLatin1(Latin1(b)) && Latin1Bytes(Latin1(b)) == b
  {
  }

  /**
   * For ASCII text, reading its UTF-8 bytes one character per byte gives the
   * text back, which is why the `atob` decoders work for ASCII claims.
   */
  lemma AsciiLatin1Utf8(s: string)
    requires IsAscii(s)
    ensures Latin1(Utf8Encode(s)) == s
  {
  }

  /** For non-ASCII text the Latin-1 reading differs: "é" comes back as "Ã©". */
  lemma NonAsciiLatin1Utf8()
    ensures Latin1(Utf8Encode("é")) == "Ã©"
    ensures Latin1(Utf8Encode("é")) != "é"
  {
    assert Utf8Encode("é") == EncodeChar('é');
    assert EncodeChar('é') == [0xC3, 0xA9];
  }

  // ---------------------------------------------------------------------
  // String methods

  /** The characters `String.prototype.trim` removes (WhiteSpace and LineTerminator of ECMA-262). */
  predicate IsJsSpace(c: char) {
    c == '\t' || c == '\n' || c == '\U{000B}' || c == '\U{000C}' || c == '\r' || c == ' '
    || c == '\U{00A0}' || c == '\U{1680}' || ('\U{2000}' <= c <= '\U{200A}')
    || c == '\U{2028}' || c == '\U{2029}' || c == '\U{202F}' || c == '\U{205F}'
    || c == '\U{3000}' || c == '\U{FEFF}'
  }

  function TrimStart(s: string): (r: string)
    ensures |r| <= |s| && r == s[|s| - |r|..]
    ensures |r| > 0 ==> !IsJsSpace(r[0])
  {
    if |s| > 0 && IsJsSpace(s[0]) then TrimStart(s[1..]) else s
  }

  function TrimEnd(s: string): (r: string)
    ensures |r| <= |s| && r == s[..|r|]
    ensures |r| > 0 ==> !IsJsSpace(r[|r| - 1])
  {
    if |s| > 0 && IsJsSpace(s[|s| - 1]) then TrimEnd(s[..|s| - 1]) else s
  }

  /** `s.trim()`: a contiguous piece of `s` that neither starts nor ends with white space. */
  function Trim(s: string): (r: string)
    ensures |r| <= |s|
    ensures |r| > 0 ==> !IsJsSpace(r[0]) && !IsJsSpace(r[|r| - 1])
  {
    TrimEnd(TrimStart(s))
  }

  /** Trimming twice is trimming once. */
  lemma TrimIdempotent(s: string)
    ensures Trim(Trim(s)) == Trim(s)
  {
    var r := Trim(s);
    assert TrimStart(r) == r;
  }

  /** A string made only of white space trims to the empty string, and only such a string does. */
  lemma {:induction false} TrimEmpty(s: string)
    ensures Trim(s) == [] <==> forall i :: 0 <= i < |s| ==> IsJsSpace(s[i])
  {
    if |s| > 0 && IsJsSpace(s[0]) {
      TrimEmpty(s[1..]);
      assert TrimStart(s) == TrimStart(s[1..]);
      assert forall i :: 1 <= i < |s| ==> s[i] == s[1..][i - 1];
    } else if |s| > 0 {
      assert TrimStart(s) == s;
      assert TrimEnd(s) != [] by {
        if TrimEnd(s) == [] { TrimEndEmpty(s); }
      }
    }
  }

  lemma {:induction false} TrimEndEmpty(s: string)
    requires TrimEnd(s) == []
    ensures forall i :: 0 <= i < |s| ==> IsJsSpace(s[i])
  {
    if |s| > 0 {
      assert IsJsSpace(s[|s| - 1]);
      TrimEndEmpty(s[..|s| - 1]);
      assert forall i :: 0 <= i < |s| - 1 ==> s[i] == s[..|s| - 1][i];
    }
  }

  function LowerChar(c: char): char {
    if 'A' <= c <= 'Z' then (c as int + 32) as char else c
  }

  /** `s.toLowerCase()` on ASCII letters; other characters are kept (see README). */
  function ToLower(s: string): (r: string)
    ensures |r| == |s|
    ensures forall i :: 0 <= i < |s| ==> r[i] == LowerChar(s[i])
  {
    seq(|s|, i requires 0 <= i < |s| => LowerChar(s[i]))
  }

  /** Number of occurrences of `d` in `s`. */
  function Count(s: string, d: char): nat {
    if |s| == 0 then 0 else (if s[0] == d then 1 else 0) + Count(s[1..], d)
  }

  /** `s.split(d)` for a one-character separator. */
  function Split(s: string, d: char): (parts: seq<string>)
    ensures |parts| == Count(s, d) + 1
    ensures forall i :: 0 <= i < |parts| ==> d !in parts[i]
    decreases |s|
  {
    if |s| == 0 then [""]
    else
      var rest := Split(s[1..], d);
      if s[0] == d then [""] + rest
      else [[s[0]] + rest[0]] + rest[1..]
  }

  /** A piece without the separator is its own single part. */
  lemma {:induction false} SplitNone(a: string, d: char)
    requires d !in a
    ensures Split(a, d) == [a]
  {
    if |a| > 0 {
      SplitNone(a[1..], d);
      assert [a[0]] + a[1..] == a;
    }
  }

  /** Splitting `a` + separator + `rest`, where `a` has no separator, yields `a` then the parts of `rest`. */
  lemma {:induction false} SplitCons(a: string, d: char, rest: string)
    requires d !in a
    ensures Split(a + [d] + rest, d) == [a] + Split(rest, d)
  {
    var s := a + [d] + rest;
    if |a| == 0 {
      assert s == [d] + rest;
      assert s[1..] == rest;
    } else {
      assert s[1..] == a[1..] + [d] + rest;
      SplitCons(a[1..], d, rest);
      assert [a[0]] + a[1..] == a;
    }
  }

  /** Joining three separator-free pieces with `d` and splitting on `d` gives the pieces back. */
  lemma SplitThree(a: string, b: string, c: string, d: char)
    requires d !in a && d !in b && d !in c
    ensures Split(a + [d] + b + [d] + c, d) == [a, b, c]
  {
    assert a + [d] + b + [d] + c == a + [d] + (b + [d] + c);
    SplitCons(a, d, b + [d] + c);
    SplitCons(b, d, c);
    SplitNone(c, d);
  }

  /** The first part of `s.split(d)` is the text of `s` before its first `d`, or all of `s` when there is none. */
  lemma {:induction false} SplitHead(s: string, d: char)
    ensures var h := Split(s, d)[0];
      && |h| <= |s| && s[..|h|] == h && d !in h
      && (|h| < |s| ==> s[|h|] == d)
    decreases |s|
  {
    if |s| > 0 && s[0] != d {
      SplitHead(s[1..], d);
    }
  }

  /** `d` occurs in `s` exactly when it is counted. */
  lemma {:induction false} CountIn(s: string, d: char)
    ensures Count(s, d) > 0 <==> d in s
    decreases |s|
  {
    if |s| > 0 {
      CountIn(s[1..], d);
      assert s == [s[0]] + s[1..];
    }
  }

  /** The last part of `s.split(d)` is the text of `s` after its last `d`, or all of `s` when there is none. */
  lemma {:induction false} SplitLast(s: string, d: char)
    ensures var parts := Split(s, d); var t := parts[|parts| - 1];
      && |t| <= |s| && s[|s| - |t|..] == t && d !in t
      && (|t| < |s| ==> s[|s| - |t| - 1] == d)
      && (d !in s ==> t == s)
    decreases |s|
  {
    if d !in s {
      SplitNone(s, d);
    } else if |s| > 0 {
      var rest := Split(s[1..], d);
      SplitLast(s[1..], d);
      CountIn(s[1..], d);
      assert s[1..][|s[1..]| - |rest[|rest| - 1]|..] == s[|s| - |rest[|rest| - 1]|..];
    }
  }

  /** `s.replace(/from/g, to)` for single characters. */
  function Replace(s: string, from: char, to: char): (r: string)
    ensures |r| == |s|
    ensures forall i :: 0 <= i < |s| ==> r[i] == if s[i] == from then to else s[i]
  {
    seq(|s|, i requires 0 <= i < |s| => if s[i] == from then to else s[i])
  }

  /** `s.replace(/c+$/, '')`: drops every trailing `c`. */
  function StripTrailing(s: string, c: char): (r: string)
    ensures |r| <= |s| && r == s[..|r|]
    ensures |r| > 0 ==> r[|r| - 1] != c
    ensures forall i :: |r| <= i < |s| ==> s[i] == c
  {
    if |s| > 0 && s[|s| - 1] == c then StripTrailing(s[..|s| - 1], c) else s
  }

  predicate EndsWith(s: string, suffix: string) {
    |suffix| <= |s| && s[|s| - |suffix|..] == suffix
  }

  /** `s.padStart(n, c)`. */
  function PadStart(s: string, n: nat, c: char): (r: string)
    ensures |s| >= n ==> r == s
    ensures |s| < n ==> |r| == n && r[n - |s|..] == s
    ensures forall i :: 0 <= i < |r| - |s| ==> r[i] == c
  {
    if |s| >= n then s else seq(n - |s|, _ => c) + s
  }

  /** `s.padEnd(n, c)`. */
  function PadEnd(s: string, n: nat, c: char): (r: string)
    ensures |s| >= n ==> r == s
    ensures |s| < n ==> |r| == n && r[..|s|] == s
    ensures forall i :: |s| <= i < |r| ==> r[i] == c
  {
    if |s| >= n then s else s + seq(n - |s|, _ => c)
  }
}

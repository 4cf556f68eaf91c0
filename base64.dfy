/**
 * Base64 as the token code uses it.
 *
 * - `StdEncode` is what `btoa(String.fromCharCode(...bytes))` returns: the
 *   padded encoding of RFC 4648 section 4.
 * - `UrlEncode` is the token code's `base64urlEncode` / `base64url`: that
 *   string with '+' replaced by '-', '/' by '_' and trailing '=' removed.
 *   It is proved equal to `UrlUnpadded`, the unpadded base64url alphabet of
 *   RFC 4648 section 5 written directly.
 * - `NodeEncode` is `Buffer#toString('base64')`, defined character by
 *   character, and proved equal to `StdEncode`.
 * - `Atob` is the browser/Deno `atob` (the forgiving-base64 decode of the
 *   WHATWG Infra standard), which fails on bad input; `NodeDecode` is
 *   `Buffer.from(s, 'base64')`, which never fails.
 */
module Base64 {
  import opened Wrappers
  import opened Text

  /** The character of value `k` in the standard alphabet (RFC 4648, Table 1). */
  function StdChar(k: int): (c: char)
    requires 0 <= k < 64
  {
    if k < 26 then ('A' as int + k) as char
    else if k < 52 then ('a' as int + k - 26) as char
    else if k < 62 then ('0' as int + k - 52) as char
    else if k == 62 then '+' else '/'
  }

  /** The value of a standard-alphabet character, or None outside the alphabet. */
  function StdValue(c: char): (r: Option<int>)
    ensures r.Some? ==> 0 <= r.value < 64 && StdChar(r.value) == c
  {
    if 'A' <= c <= 'Z' then Some(c as int - 'A' as int)
    else if 'a' <= c <= 'z' then Some(c as int - 'a' as int + 26)
    else if '0' <= c <= '9' then Some(c as int - '0' as int + 52)
    else if c == '+' then Some(62)
    else if c == '/' then Some(63)
    else None
  }

  lemma StdValueOfChar(k: int)
    requires 0 <= k < 64
    ensures StdValue(StdChar(k)) == Some(k)
  {
  }

  /** The character of value `k` in the URL-safe alphabet (RFC 4648, Table 2). */
  function UrlChar(k: int): (c: char)
    requires 0 <= k < 64
  {
    if k == 62 then '-' else if k == 63 then '_' else StdChar(k)
  }

  predicate IsUrlChar(c: char) {
    'A' <= c <= 'Z' || 'a' <= c <= 'z' || '0' <= c <= '9' || c == '-' || c == '_'
  }

  // ---------------------------------------------------------------------
  // The six-bit values of a group of one to three bytes

  function V0(b0: byte): int { b0 as int / 4 }
  function V1(b0: byte, b1: byte): int { (b0 as int % 4) * 16 + b1 as int / 16 }
  function V2(b1: byte, b2: byte): int { (b1 as int % 16) * 4 + b2 as int / 64 }
  function V3(b2: byte): int { b2 as int % 64 }

  /**
   * The six-bit values RFC 4648 section 4 assigns to `b`: four per full group
   * of three bytes, and two or three for a final group of one or two bytes
   * (whose missing bits are zero).
   */
  function Sextets(b: seq<byte>): (v: seq<int>)
    ensures forall i :: 0 <= i < |v| ==> 0 <= v[i] < 64
    ensures |v| == (4 * |b| + 2) / 3
    decreases |b|
  {
    if |b| == 0 then []
    else if |b| == 1 then [V0(b[0]), V1(b[0], 0)]
    else if |b| == 2 then [V0(b[0]), V1(b[0], b[1]), V2(b[1], 0)]
    else [V0(b[0]), V1(b[0], b[1]), V2(b[1], b[2]), V3(b[2])] + Sextets(b[3..])
  }

  /** The '=' characters `btoa` appends for `n` input bytes. */
  function Padding(n: nat): (p: string)
    ensures forall i :: 0 <= i < |p| ==> p[i] == '='
  {
    if n % 3 == 1 then "==" else if n % 3 == 2 then "=" else ""
  }

  /** `btoa` of the Latin-1 string of `b`: padded standard base64. */
  function StdEncode(b: seq<byte>): (s: string)
  {
    var v := Sextets(b);
    seq(|v|, i requires 0 <= i < |v| => StdChar(v[i])) + Padding(|b|)
  }

  /** `btoa(s)`: fails (InvalidCharacterError) on a character above U+00FF. */
  function Btoa(s: string): (r: Option<string>)
    ensures r.Some? <==> IsLatin1(s)
  {
    if IsLatin1(s) then Some(StdEncode(Latin1Bytes(s))) else None
  }

  /** `btoa(String.fromCharCode(...bytes))` never throws and is `StdEncode(bytes)`. */
  lemma BtoaOfBytes(b: seq<byte>)
    ensures Btoa(Latin1(b)) == Some(StdEncode(b))
  {
    Latin1BytesOfLatin1(b);
  }

  /** The token code's `base64urlEncode`: `btoa`, then '+' to '-', '/' to '_', then trailing '=' dropped. */
  function UrlEncode(b: seq<byte>): string {
    StripTrailing(Replace(Replace(StdEncode(b), '+', '-'), '/', '_'), '=')
  }

  /** Unpadded base64url (RFC 4648 sections 5 and 3.2), written directly. */
  function UrlUnpadded(b: seq<byte>): (s: string)
    ensures forall i :: 0 <= i < |s| ==> IsUrlChar(s[i])
    ensures |s| % 4 != 1
  {
    SextetCountMod(|b|);
    var v := Sextets(b);
    seq(|v|, i requires 0 <= i < |v| => UrlChar(v[i]))
  }

  /** Unpadded base64 never leaves a lone character in the last group. */
  lemma SextetCountMod(n: nat)
    ensures (4 * n + 2) / 3 % 4 != 1
  {
    var q, r := n / 3, n % 3;
    if r == 0 {
      assert 4 * n + 2 == 3 * (4 * q) + 2;
    } else if r == 1 {
      assert 4 * n + 2 == 3 * (4 * q + 2) + 0;
    } else {
      assert 4 * n + 2 == 3 * (4 * q + 3) + 1;
    }
  }

  function ToUrl(c: char): char {
    if c == '+' then '-' else if c == '/' then '_' else c
  }

  /** The token code's encoder is exactly unpadded base64url. */
  lemma UrlEncodeIsUnpadded(b: seq<byte>)
    ensures UrlEncode(b) == UrlUnpadded(b)
  {
    var v := Sextets(b);
    var std := StdEncode(b);
    var body := UrlUnpadded(b);
    var mapped := Replace(Replace(std, '+', '-'), '/', '_');
    assert forall i :: 0 <= i < |v| ==> std[i] == StdChar(v[i]);
    assert forall i :: 0 <= i < |v| ==> mapped[i] == UrlChar(v[i]);
    assert mapped[..|body|] == body;
    assert forall i :: |body| <= i < |mapped| ==> mapped[i] == '=';
    StripTrailingPad(mapped, |body|);
  }

  /** Stripping trailing '=' from a string whose suffix after position `k` is all '=' and whose char at `k-1` is not. */
  lemma {:induction false} StripTrailingPad(s: string, k: nat)
    requires k <= |s|
    requires forall i :: k <= i < |s| ==> s[i] == '='
    requires k > 0 ==> s[k - 1] != '='
    ensures StripTrailing(s, '=') == s[..k]
    decreases |s|
  {
    if |s| > k {
      assert s[..|s| - 1][..k] == s[..k];
      StripTrailingPad(s[..|s| - 1], k);
    }
  }

  /** Base64url output never holds '+', '/', '=' or '.'. */
  lemma UrlEncodeAlphabet(b: seq<byte>)
    ensures forall i :: 0 <= i < |UrlEncode(b)| ==> IsUrlChar(UrlEncode(b)[i])
    ensures '+' !in UrlEncode(b) && '/' !in UrlEncode(b) && '=' !in UrlEncode(b) && '.' !in UrlEncode(b)
  {
    UrlEncodeIsUnpadded(b);
  }

  // ---------------------------------------------------------------------
  // Buffer#toString('base64'), character by character

  /** Byte `i` of `b`, or zero past its end. */
  function ByteOr0(b: seq<byte>, i: nat): byte {
    if i < |b| then b[i] else 0
  }

  /** Output character `k` of Node's encoder: group `k / 4`, position `k % 4`. */
  function NodeCharAt(b: seq<byte>, k: nat): char
    requires k / 4 * 3 < |b|
  {
    var i := k / 4 * 3;
    var j := k % 4;
    if j == 0 then StdChar(V0(b[i]))
    else if j == 1 then StdChar(V1(b[i], ByteOr0(b, i + 1)))
    else if j == 2 then (if i + 1 < |b| then StdChar(V2(b[i + 1], ByteOr0(b, i + 2))) else '=')
    else (if i + 2 < |b| then StdChar(V3(b[i + 2])) else '=')
  }

  /** `Buffer.from(b).toString('base64')`. */
  function NodeEncode(b: seq<byte>): (s: string)
    ensures |s| == 4 * ((|b| + 2) / 3)
  {
    seq(4 * ((|b| + 2) / 3), k requires 0 <= k < 4 * ((|b| + 2) / 3) => NodeCharAt(b, k))
  }

  /** The six-bit value at position `k` of `Sextets(b)`, computed from the group it falls in. */
  lemma {:induction false} SextetAt(b: seq<byte>, k: nat)
    requires k < |Sextets(b)|
    ensures k / 4 * 3 < |b|
    ensures k % 4 == 2 ==> k / 4 * 3 + 1 < |b|
    ensures k % 4 == 3 ==> k / 4 * 3 + 2 < |b|
    ensures var i := k / 4 * 3;
      Sextets(b)[k] == match k % 4
        case 0 => V0(b[i])
        case 1 => V1(b[i], ByteOr0(b, i + 1))
        case 2 => V2(b[i + 1], ByteOr0(b, i + 2))
        case _ => V3(b[i + 2])
    decreases |b|
  {
    if k >= 4 {
      assert |b| >= 3;
      var i := k / 4 * 3;
      var rest := b[3..];
      SextetAt(rest, k - 4);
      assert (k - 4) / 4 == k / 4 - 1 && (k - 4) % 4 == k % 4;
      assert (k - 4) / 4 * 3 == i - 3;
      assert Sextets(b)[k] == Sextets(rest)[k - 4];
      assert ByteOr0(rest, i - 2) == ByteOr0(b, i + 1) && ByteOr0(rest, i - 1) == ByteOr0(b, i + 2);
    }
  }

  /** Past the six-bit values, Node's encoder emits exactly the padding `btoa` emits. */
  lemma NodePaddingAt(b: seq<byte>, k: nat)
    requires |Sextets(b)| <= k < 4 * ((|b| + 2) / 3)
    ensures k / 4 * 3 < |b|
    ensures NodeCharAt(b, k) == '='
    ensures k - |Sextets(b)| < |Padding(|b|)|
  {
    var n := |b|;
    var m, r := n / 3, n % 3;
    assert n == 3 * m + r;
    if r == 1 {
      assert (n + 2) / 3 == m + 1 && (4 * n + 2) / 3 == 4 * m + 2;
      assert 4 * m + 2 <= k < 4 * m + 4;
      assert k / 4 == m && k % 4 == k - 4 * m;
    } else if r == 2 {
      assert (n + 2) / 3 == m + 1 && (4 * n + 2) / 3 == 4 * m + 3;
      assert k == 4 * m + 3 && k / 4 == m && k % 4 == 3;
    } else {
      // A whole number of groups: no position lies past the six-bit values.
      assert false;
    }
  }

  /** Node's encoder and `btoa` agree on every byte string. */
  lemma NodeEncodeIsBtoa(b: seq<byte>)
    ensures NodeEncode(b) == StdEncode(b)
  {
    var v := Sextets(b);
    var n := NodeEncode(b);
    var s := StdEncode(b);
    assert |s| == 4 * ((|b| + 2) / 3) by {
      var m := |b| / 3;
      assert |b| == 3 * m + |b| % 3;
    }
    forall k | 0 <= k < |n| ensures n[k] == s[k] {
      if k < |v| {
        SextetAt(b, k);
        assert s[k] == StdChar(v[k]);
      } else {
        NodePaddingAt(b, k);
        assert s[k] == Padding(|b|)[k - |v|];
      }
    }
  }

  /** `Buffer`'s `base64url` in api/record-rsvp.ts produces the same string as the `btoa` copies. */
  lemma BufferUrlEncodeAgrees(b: seq<byte>)
    ensures StripTrailing(Replace(Replace(NodeEncode(b), '+', '-'), '/', '_'), '=') == UrlEncode(b)
  {
    NodeEncodeIsBtoa(b);
  }

  // ---------------------------------------------------------------------
  // Decoding

  predicate IsAsciiSpace(c: char) {
    c == '\t' || c == '\n' || c == '\U{000C}' || c == '\r' || c == ' '
  }

  function RemoveAsciiSpace(s: string): (r: string)
    ensures |r| <= |s|
  {
    if |s| == 0 then []
    else (if IsAsciiSpace(s[0]) then [] else [s[0]]) + RemoveAsciiSpace(s[1..])
  }

  predicate AllStd(s: string) {
    forall i :: 0 <= i < |s| ==> StdValue(s[i]).Some?
  }

  /** The six-bit values of standard-alphabet text. */
  function StdValues(s: string): (v: seq<int>)
    requires AllStd(s)
    ensures |v| == |s|
    ensures forall i :: 0 <= i < |v| ==> 0 <= v[i] < 64 && v[i] == StdValue(s[i]).value
  {
    seq(|s|, i requires 0 <= i < |s| => StdValue(s[i]).value)
  }

  /** Bytes of a run of six-bit values, four to three; a final one or two or three values give no, one or two bytes. */
  function DecodeSextets(v: seq<int>): seq<byte>
    requires forall i :: 0 <= i < |v| ==> 0 <= v[i] < 64
    decreases |v|
  {
    if |v| <= 1 then []
    else if |v| == 2 then [(v[0] * 4 + v[1] / 16) as byte]
    else if |v| == 3 then [(v[0] * 4 + v[1] / 16) as byte, ((v[1] % 16) * 16 + v[2] / 4) as byte]
    else
      [(v[0] * 4 + v[1] / 16) as byte, ((v[1] % 16) * 16 + v[2] / 4) as byte, ((v[2] % 4) * 64 + v[3]) as byte]
      + DecodeSextets(v[4..])
  }

  /** Removes one or two trailing '=' (step 2 of forgiving-base64 decode). */
  function DropPadding(s: string): (r: string)
    ensures |r| <= |s|
  {
    if |s| >= 2 && s[|s| - 2..] == "==" then s[..|s| - 2]
    else if |s| >= 1 && s[|s| - 1] == '=' then s[..|s| - 1]
    else s
  }

  /** `atob(s)`: the decoded Latin-1 string, or None where `atob` throws. */
  function Atob(s: string): (r: Option<string>)
    ensures r.Some? ==> IsLatin1(r.value)
  {
    var t := RemoveAsciiSpace(s);
    var u := if |t| % 4 == 0 then DropPadding(t) else t;
    if |u| % 4 == 1 || !AllStd(u) then None
    else Some(Latin1(DecodeSextets(StdValues(u))))
  }

  /** Node's value for a character: both alphabets are accepted. */
  function NodeValue(c: char): Option<int> {
    if c == '-' then Some(62) else if c == '_' then Some(63) else StdValue(c)
  }

  /** The characters Node's decoder uses: those before the first '=', outside the alphabet skipped. */
  function NodeSymbols(s: string): (r: seq<int>)
    ensures forall i :: 0 <= i < |r| ==> 0 <= r[i] < 64
  {
    if |s| == 0 || s[0] == '=' then []
    else match NodeValue(s[0])
      case Some(v) => [v] + NodeSymbols(s[1..])
      case None => NodeSymbols(s[1..])
  }

  /** `Buffer.from(s, 'base64')`: lenient, so it returns bytes for every input. */
  function NodeDecode(s: string): seq<byte> {
    DecodeSextets(NodeSymbols(s))
  }

  /** `s.replace(/-/g, '+').replace(/_/g, '/')`, as the verifiers do before decoding. */
  function FromUrl(s: string): string {
    Replace(Replace(s, '-', '+'), '_', '/')
  }

  lemma GroupRoundTrip(b0: byte, b1: byte, b2: byte)
    ensures V0(b0) * 4 + V1(b0, b1) / 16 == b0 as int
    ensures (V1(b0, b1) % 16) * 16 + V2(b1, b2) / 4 == b1 as int
    ensures (V2(b1, b2) % 4) * 64 + V3(b2) == b2 as int
  {
  }

  /** Decoding the six-bit values of `b` gives `b` back. */
  lemma {:induction false} SextetsRoundTrip(b: seq<byte>)
    ensures DecodeSextets(Sextets(b)) == b
    decreases |b|
  {
    var v := Sextets(b);
    if |b| >= 3 {
      GroupRoundTrip(b[0], b[1], b[2]);
      assert v[4..] == Sextets(b[3..]);
      SextetsRoundTrip(b[3..]);
      assert b == b[..3] + b[3..];
    } else if |b| == 2 {
      GroupRoundTrip(b[0], b[1], 0);
    } else if |b| == 1 {
      GroupRoundTrip(b[0], 0, 0);
    }
  }

  /** After the '-'/'_' mapping a token segment is the standard-alphabet text of its six-bit values. */
  lemma FromUrlEncode(b: seq<byte>)
    ensures var f := FromUrl(UrlEncode(b));
      AllStd(f) && StdValues(f) == Sextets(b) && (|f| > 0 ==> f[|f| - 1] != '=') && |f| % 4 != 1
  {
    UrlEncodeIsUnpadded(b);
    var v := Sextets(b);
    var f := FromUrl(UrlUnpadded(b));
    forall i | 0 <= i < |v| ensures StdValue(f[i]) == Some(v[i]) {
      StdValueOfChar(v[i]);
    }
  }

  /** `atob` of a token segment after the '-'/'_' mapping decodes to the Latin-1 string of the encoded bytes. */
  lemma AtobRoundTrip(b: seq<byte>)
    ensures Atob(FromUrl(UrlEncode(b))) == Some(Latin1(b))
  {
    FromUrlEncode(b);
    SextetsRoundTrip(b);
    var f := FromUrl(UrlEncode(b));
    NoAsciiSpace(f);
    assert DropPadding(f) == f;
  }

  lemma {:induction false} NoAsciiSpace(s: string)
    requires AllStd(s)
    ensures RemoveAsciiSpace(s) == s
  {
    if |s| > 0 {
      assert StdValue(s[0]).Some?;
      NoAsciiSpace(s[1..]);
      assert [s[0]] + s[1..] == s;
    }
  }

  /** Node's decoder reads standard text with no '=' symbol by symbol. */
  lemma {:induction false} NodeSymbolsOfStd(s: string)
    requires AllStd(s)
    ensures NodeSymbols(s) == StdValues(s)
  {
    if |s| > 0 {
      NodeSymbolsOfStd(s[1..]);
      assert StdValues(s) == [StdValues(s)[0]] + StdValues(s[1..]);
    }
  }

  /** `Buffer.from(..., 'base64')` of a token segment after the mapping gives back the encoded bytes. */
  lemma NodeDecodeRoundTrip(b: seq<byte>)
    ensures NodeDecode(FromUrl(UrlEncode(b))) == b
  {
    FromUrlEncode(b);
    NodeSymbolsOfStd(FromUrl(UrlEncode(b)));
    SextetsRoundTrip(b);
  }

  /** A one-character segment is rejected by `atob`: its length leaves remainder 1 modulo 4. */
  lemma AtobRejectsLoneChar()
    ensures Atob(FromUrl("a")) == None
  {
    assert FromUrl("a") == "a";
    assert RemoveAsciiSpace("a") == "a";
  }

  /** Node's decoder accepts the same segment and yields no bytes. */
  lemma NodeDecodeAcceptsLoneChar()
    ensures NodeDecode(FromUrl("a")) == [] && NodeDecode(FromUrl("b")) == []
  {
    assert FromUrl("a") == "a";
    assert FromUrl("b") == "b";
  }
}

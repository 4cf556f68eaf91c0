/**
 * The session token shared by the edge functions: a compact JWS
 * (RFC 7515, section 7.1) `header.payload.signature` whose segments are
 * base64url without padding (RFC 4648, section 5) and whose signature is
 * HMAC-SHA-256 (RFC 7518, section 3.2) keyed by the OTP salt.
 *
 * The same code appears in four places. Creation in verify-otp and
 * refresh-token differs only in the lifetime. Verification differs only in
 * how a segment becomes text: the Deno copies use `atob`, which throws on
 * malformed input and yields one character per byte, while the Node copy
 * uses `Buffer.from(_, 'base64').toString('utf8')`, which never throws.
 */
module SessionToken {
  import opened Wrappers
  import opened Text
  import opened Base64
  import opened Js

  /** Lifetime of a token minted when an OTP is verified: 12 hours, in seconds. */
  const MintLifetime: int := 60 * 60 * 12

  /** Lifetime of a refreshed token: 365 days, in seconds. */
  const RefreshLifetime: int := 60 * 60 * 24 * 365

  /** The header object every created token carries. */
  const Header: Json := JObj([("alg", JStr("HS256")), ("typ", JStr("JWT"))])

  /** `base64urlEncode` of a string: its UTF-8 bytes in unpadded base64url. */
  function EncodeText(s: string): (r: string)
    ensures forall i :: 0 <= i < |r| ==> IsUrlChar(r[i])
    ensures '.' !in r && '=' !in r
  {
    UrlEncodeAlphabet(Utf8Encode(s));
    UrlEncode(Utf8Encode(s))
  }

  /** `sign`: HMAC-SHA-256 of the UTF-8 message under the UTF-8 secret, in unpadded base64url. */
  function Sign(rt: Runtime, secret: string, message: string): (r: string)
    ensures forall i :: 0 <= i < |r| ==> IsUrlChar(r[i])
    ensures '.' !in r && '=' !in r
  {
    var mac := rt.hmac(Utf8Encode(secret), Utf8Encode(message));
    UrlEncodeAlphabet(mac);
    UrlEncode(mac)
  }

  /** The claims passed to `createSessionToken`; `None` is a property whose value is undefined. */
  datatype Seed = Seed(sub: Option<Json>, email: Option<Json>, isAdmin: Option<Json>)

  /** A property as `JSON.stringify` emits it: dropped when undefined. */
  function Field(name: string, v: Option<Json>): seq<(string, Json)> {
    if v.Some? then [(name, v.value)] else []
  }

  /** The object `{ ...payload, exp }` after a stringify/parse round trip. */
  function Claims(seed: Seed, exp: int): Json {
    JObj(Field("sub", seed.sub) + Field("email", seed.email) + Field("isAdmin", seed.isAdmin) + [("exp", JNum(exp))])
  }

  /** `Math.floor(Date.now() / 1000) + lifetime`; Dafny's division by a positive constant is the floor. */
  function Expiry(nowMs: int, lifetime: int): (e: int)
    ensures (e - lifetime) * 1000 <= nowMs < (e - lifetime + 1) * 1000
  {
    nowMs / 1000 + lifetime
  }

  /** Three separator-free base64url segments joined with '.' use only the URL alphabet and '.'. */
  lemma JoinAlphabet(h: string, b: string, s: string)
    requires forall i :: 0 <= i < |h| ==> IsUrlChar(h[i])
    requires forall i :: 0 <= i < |b| ==> IsUrlChar(b[i])
    requires forall i :: 0 <= i < |s| ==> IsUrlChar(s[i])
    ensures var t := h + "." + b + "." + s;
      forall i :: 0 <= i < |t| ==> t[i] == '.' || IsUrlChar(t[i])
  {
    var t := h + "." + b + "." + s;
    forall i | 0 <= i < |t|
      ensures t[i] == '.' || IsUrlChar(t[i])
    {
      if i < |h| {
        assert t[i] == h[i];
      } else if |h| + 1 <= i < |h| + 1 + |b| {
        assert t[i] == b[i - |h| - 1];
      } else if |h| + |b| + 2 <= i {
        assert t[i] == s[i - |h| - |b| - 2];
      }
    }
  }

  /** `createSessionToken`: header, claims with `exp`, and the signature of the first two segments. */
  function CreateSessionToken(rt: Runtime, secret: string, seed: Seed, lifetime: int, nowMs: int): (t: string)
    ensures |Split(t, '.')| == 3
    ensures forall i :: 0 <= i < |t| ==> t[i] == '.' || IsUrlChar(t[i])
  {
    var h := EncodeText(rt.stringify(Header));
    var b := EncodeText(rt.stringify(Claims(seed, Expiry(nowMs, lifetime))));
    var s := Sign(rt, secret, h + "." + b);
    SplitThree(h, b, s, '.');
    JoinAlphabet(h, b, s);
    h + "." + b + "." + s
  }

  /** How a verifier turns a segment into text. */
  datatype Decoder = AtobDecoder | BufferDecoder

  /** The text of a segment after the '-' and '_' replacements; `None` where `atob` throws. */
  function DecodeSegment(d: Decoder, seg: string): (r: Option<string>)
    ensures d.BufferDecoder? ==> r.Some?
  {
    match d
    case AtobDecoder => Atob(FromUrl(seg))
    case BufferDecoder => Some(Utf8Decode(NodeDecode(FromUrl(seg))))
  }

  /** The outcome of `verifyToken`: the parsed body, `null`, or an exception that escapes it. */
  datatype Verdict = Valid(body: Json) | Invalid | Throws

  /** The header segment decodes and parses to a non-null value whose `alg` is exactly "HS256". */
  predicate AlgPinned(rt: Runtime, d: Decoder, seg: string) {
    var text := DecodeSegment(d, seg);
    text.Some? && var header := rt.parse(text.value);
    header.Some? && !header.value.JNull? && Prop(header.value, "alg") == Some(JStr("HS256"))
  }

  /**
   * `verifyToken`. Both segments are decoded before the `try` around
   * `JSON.parse`, so a decoding failure escapes; a `null` header makes the
   * `header.alg` access throw after it.
   */
  function VerifyToken(rt: Runtime, secret: string, d: Decoder, token: string): (r: Verdict)
    ensures r.Valid? ==>
      var parts := Split(token, '.');
      && |parts| == 3
      && AlgPinned(rt, d, parts[0])
      && Sign(rt, secret, parts[0] + "." + parts[1]) == parts[2]
      && DecodeSegment(d, parts[1]).Some?
      && rt.parse(DecodeSegment(d, parts[1]).value) == Some(r.body)
    ensures r.Throws? ==> |Split(token, '.')| == 3
  {
    var parts := Split(token, '.');
    if |parts| != 3 then Invalid
    else
      var headerJson := DecodeSegment(d, parts[0]);
      var bodyJson := DecodeSegment(d, parts[1]);
      if headerJson.None? || bodyJson.None? then Throws
      else
        var header := rt.parse(headerJson.value);
        var body := rt.parse(bodyJson.value);
        if header.None? || body.None? then Invalid
        else if header.value.JNull? then Throws
        else if Prop(header.value, "alg") != Some(JStr("HS256")) then Invalid
        else if Sign(rt, secret, parts[0] + "." + parts[1]) != parts[2] then Invalid
        else Valid(body.value)
  }

  // ---------------------------------------------------------------------
  // Claims

  /** `claims.exp * 1000 < now`; NaN compares false, so a token without a numeric `exp` never expires. */
  predicate Expired(rt: Runtime, claims: Json, nowMs: int)
    requires !claims.JNull?
  {
    match ToNumber(rt, Prop(claims, "exp"))
    case Num(e) => e * 1000 < nowMs
    case NaN => false
  }

  lemma ExpiredAt(rt: Runtime, claims: Json, exp: int, nowMs: int)
    requires claims.JObj? && Prop(claims, "exp") == Some(JNum(exp))
    ensures Expired(rt, claims, nowMs) <==> exp * 1000 < nowMs
  {
  }

  /** Every defined claim is a primitive value. */
  predicate SeedPrimitive(seed: Seed) {
    && (seed.sub.Some? ==> IsPrimitive(seed.sub.value))
    && (seed.email.Some? ==> IsPrimitive(seed.email.value))
    && (seed.isAdmin.Some? ==> IsPrimitive(seed.isAdmin.value))
  }

  predicate AsciiValue(v: Option<Json>) {
    v.Some? && v.value.JStr? ==> IsAscii(v.value.s)
  }

  /** Every string claim is ASCII. */
  predicate SeedAscii(seed: Seed) {
    AsciiValue(seed.sub) && AsciiValue(seed.email) && AsciiValue(seed.isAdmin)
  }

  lemma ClaimsFlat(seed: Seed, exp: int)
    requires SeedPrimitive(seed)
    ensures Flat(Claims(seed, exp))
  {
    assert !IsIndexLike("sub") by { assert "sub"[0] == 's'; }
    assert !IsIndexLike("email") by { assert "email"[0] == 'e'; }
    assert !IsIndexLike("isAdmin") by { assert "isAdmin"[0] == 'i'; }
    assert !IsIndexLike("exp") by { assert "exp"[0] == 'e'; }
    assert "exp" != "sub" by { assert "exp"[0] != "sub"[0]; }
    var f1 := Field("sub", seed.sub);
    assert FlatFields(f1);
    var f2 := f1 + Field("email", seed.email);
    if seed.email.Some? {
      assert forall i :: 0 <= i < |f1| ==> f1[i].0 == "sub";
      FlatSnoc(f1, "email", seed.email.value);
    } else {
      assert f2 == f1;
    }
    assert forall i :: 0 <= i < |f2| ==> f2[i].0 == "sub" || f2[i].0 == "email";
    var f3 := f2 + Field("isAdmin", seed.isAdmin);
    if seed.isAdmin.Some? {
      FlatSnoc(f2, "isAdmin", seed.isAdmin.value);
    } else {
      assert f3 == f2;
    }
    assert forall i :: 0 <= i < |f3| ==> f3[i].0 == "sub" || f3[i].0 == "email" || f3[i].0 == "isAdmin";
    FlatSnoc(f3, "exp", JNum(exp));
    assert Claims(seed, exp).fields == f3 + [("exp", JNum(exp))];
  }

  lemma ClaimsAscii(seed: Seed, exp: int)
    requires SeedAscii(seed)
    ensures AsciiObject(Claims(seed, exp))
  {
    var f1 := Field("sub", seed.sub);
    var f2 := f1 + Field("email", seed.email);
    var f3 := f2 + Field("isAdmin", seed.isAdmin);
    assert AsciiFields(f1);
    assert AsciiFields(f2);
    assert AsciiFields(f3);
    assert AsciiFields(f3 + [("exp", JNum(exp))]);
  }

  lemma HeaderFlat()
    ensures Flat(Header) && AsciiObject(Header)
  {
    assert !IsIndexLike("alg") by { assert "alg"[0] == 'a'; }
    assert !IsIndexLike("typ") by { assert "typ"[0] == 't'; }
  }

  /** The claims object reads back the seed's claims and the expiry. */
  lemma ClaimsProps(seed: Seed, exp: int)
    ensures Prop(Claims(seed, exp), "sub") == seed.sub
    ensures Prop(Claims(seed, exp), "email") == seed.email
    ensures Prop(Claims(seed, exp), "isAdmin") == seed.isAdmin
    ensures Prop(Claims(seed, exp), "exp") == Some(JNum(exp))
  {
    var a := Field("sub", seed.sub);
    var b := Field("email", seed.email);
    var c := Field("isAdmin", seed.isAdmin);
    var f := a + b + c + [("exp", JNum(exp))];
    assert f[..|f| - 1] == a + b + c;
    LookupAppendField(a + b, "isAdmin", seed.isAdmin, "exp");
    LookupAppendField(a + b, "isAdmin", seed.isAdmin, "sub");
    LookupAppendField(a + b, "isAdmin", seed.isAdmin, "email");
    LookupAppendField(a + b, "isAdmin", seed.isAdmin, "isAdmin");
    LookupAppendField(a, "email", seed.email, "sub");
    LookupAppendField(a, "email", seed.email, "email");
    LookupAppendField([], "sub", seed.sub, "sub");
    assert a == [] + a;
  }

  lemma LookupAppendField(f: seq<(string, Json)>, name: string, v: Option<Json>, key: string)
    ensures key == name ==> Lookup(f + Field(name, v), key) == (if v.Some? then v else Lookup(f, key))
    ensures key != name ==> Lookup(f + Field(name, v), key) == Lookup(f, key)
  {
    if v.Some? {
      assert (f + Field(name, v))[..|f|] == f;
    } else {
      assert f + Field(name, v) == f;
    }
  }

  // ---------------------------------------------------------------------
  // Properties of the codec

  /** A created token's segments are exactly the encoded header, the encoded claims and the signature. */
  lemma CreatedSegments(rt: Runtime, secret: string, seed: Seed, lifetime: int, nowMs: int)
    ensures var h := EncodeText(rt.stringify(Header));
      var b := EncodeText(rt.stringify(Claims(seed, Expiry(nowMs, lifetime))));
      Split(CreateSessionToken(rt, secret, seed, lifetime, nowMs), '.') == [h, b, Sign(rt, secret, h + "." + b)]
  {
    var h := EncodeText(rt.stringify(Header));
    var b := EncodeText(rt.stringify(Claims(seed, Expiry(nowMs, lifetime))));
    SplitThree(h, b, Sign(rt, secret, h + "." + b), '.');
  }

  /** The Deno verifiers read back an encoded text exactly when it is ASCII. */
  lemma AtobSegmentOfAscii(s: string)
    requires IsAscii(s)
    ensures DecodeSegment(AtobDecoder, EncodeText(s)) == Some(s)
  {
    AtobRoundTrip(Utf8Encode(s));
    AsciiLatin1Utf8(s);
  }

  /** A non-ASCII text comes back from `atob` as one character per UTF-8 byte, so it differs. */
  lemma AtobSegmentOfNonAscii(s: string)
    requires !IsAscii(s)
    ensures DecodeSegment(AtobDecoder, EncodeText(s)) == Some(Latin1(Utf8Encode(s)))
    ensures DecodeSegment(AtobDecoder, EncodeText(s)) != Some(s)
  {
    AtobRoundTrip(Utf8Encode(s));
    Utf8EncodeLonger(s);
  }

  /** The Node verifier reads back any encoded text. */
  lemma BufferSegment(s: string)
    ensures DecodeSegment(BufferDecoder, EncodeText(s)) == Some(s)
  {
    NodeDecodeRoundTrip(Utf8Encode(s));
    Utf8RoundTrip(s);
  }

  /** Some character outside ASCII makes the UTF-8 form longer than the text. */
  lemma {:induction false} Utf8EncodeLonger(s: string)
    requires !IsAscii(s)
    ensures |Utf8Encode(s)| > |s|
  {
    assert |s| > 0;
    if s[0] as int < 0x80 {
      assert !IsAscii(s[1..]);
      Utf8EncodeLonger(s[1..]);
    }
  }

  /** A token whose segments decode and parse, with a pinned header and the expected signature, is accepted. */
  lemma AcceptSigned(rt: Runtime, secret: string, d: Decoder, h: string, b: string, hv: Json, bv: Json)
    requires '.' !in h && '.' !in b
    requires DecodeSegment(d, h).Some? && rt.parse(DecodeSegment(d, h).value) == Some(hv)
    requires DecodeSegment(d, b).Some? && rt.parse(DecodeSegment(d, b).value) == Some(bv)
    requires !hv.JNull? && Prop(hv, "alg") == Some(JStr("HS256"))
    ensures VerifyToken(rt, secret, d, h + "." + b + "." + Sign(rt, secret, h + "." + b)) == Valid(bv)
  {
    SplitThree(h, b, Sign(rt, secret, h + "." + b), '.');
  }

  lemma HeaderAlg()
    ensures Prop(Header, "alg") == Some(JStr("HS256"))
  {
    assert Header.fields[..1] == [("alg", JStr("HS256"))];
  }

  /** Round trip through the Deno verifiers, for ASCII claims. */
  lemma AtobRoundTripToken(rt: Runtime, secret: string, seed: Seed, lifetime: int, nowMs: int)
    requires ParseInvertsStringify(rt) && StringifyKeepsAscii(rt)
    requires SeedPrimitive(seed) && SeedAscii(seed)
    ensures VerifyToken(rt, secret, AtobDecoder, CreateSessionToken(rt, secret, seed, lifetime, nowMs))
         == Valid(Claims(seed, Expiry(nowMs, lifetime)))
  {
    var claims := Claims(seed, Expiry(nowMs, lifetime));
    var ht := rt.stringify(Header);
    var bt := rt.stringify(claims);
    HeaderFlat();
    ClaimsFlat(seed, Expiry(nowMs, lifetime));
    ClaimsAscii(seed, Expiry(nowMs, lifetime));
    assert rt.parse(ht) == Some(Header) && IsAscii(ht);
    assert rt.parse(bt) == Some(claims) && IsAscii(bt);
    AtobSegmentOfAscii(ht);
    AtobSegmentOfAscii(bt);
    HeaderAlg();
    AcceptSigned(rt, secret, AtobDecoder, EncodeText(ht), EncodeText(bt), Header, claims);
  }

  /** Round trip through the Node verifier, for any claim text. */
  lemma BufferRoundTripToken(rt: Runtime, secret: string, seed: Seed, lifetime: int, nowMs: int)
    requires ParseInvertsStringify(rt)
    requires SeedPrimitive(seed)
    ensures VerifyToken(rt, secret, BufferDecoder, CreateSessionToken(rt, secret, seed, lifetime, nowMs))
         == Valid(Claims(seed, Expiry(nowMs, lifetime)))
  {
    var claims := Claims(seed, Expiry(nowMs, lifetime));
    var ht := rt.stringify(Header);
    var bt := rt.stringify(claims);
    HeaderFlat();
    ClaimsFlat(seed, Expiry(nowMs, lifetime));
    assert rt.parse(ht) == Some(Header);
    assert rt.parse(bt) == Some(claims);
    BufferSegment(ht);
    BufferSegment(bt);
    HeaderAlg();
    AcceptSigned(rt, secret, BufferDecoder, EncodeText(ht), EncodeText(bt), Header, claims);
  }

  /** A header that parses to an object without `alg: "HS256"` is refused whatever the signature. */
  lemma AlgPinning(rt: Runtime, secret: string, d: Decoder, h: string, b: string, sig: string)
    requires '.' !in h && '.' !in b && '.' !in sig
    requires DecodeSegment(d, h).Some? && DecodeSegment(d, b).Some?
    requires rt.parse(DecodeSegment(d, h).value).Some? && rt.parse(DecodeSegment(d, b).value).Some?
    requires !rt.parse(DecodeSegment(d, h).value).value.JNull?
    requires !AlgPinned(rt, d, h)
    ensures VerifyToken(rt, secret, d, h + "." + b + "." + sig) == Invalid
  {
    SplitThree(h, b, sig, '.');
  }

  /** A third segment other than the expected signature is never accepted. */
  lemma SignatureMismatch(rt: Runtime, secret: string, d: Decoder, h: string, b: string, sig: string)
    requires '.' !in h && '.' !in b && '.' !in sig
    requires sig != Sign(rt, secret, h + "." + b)
    ensures !VerifyToken(rt, secret, d, h + "." + b + "." + sig).Valid?
  {
    SplitThree(h, b, sig, '.');
  }

  /** A token without exactly two dots is refused. */
  lemma PartCount(rt: Runtime, secret: string, d: Decoder, token: string)
    requires Count(token, '.') != 2
    ensures VerifyToken(rt, secret, d, token) == Invalid
  {
  }

  /** "a.b.c": `atob("a")` throws before the `try`, while the Node copy decodes it to empty text. */
  lemma LoneCharSegment(rt: Runtime, secret: string)
    ensures VerifyToken(rt, secret, AtobDecoder, "a.b.c") == Throws
    ensures Split("a.b.c", '.') == ["a", "b", "c"]
    ensures DecodeSegment(BufferDecoder, "a") == Some("") && DecodeSegment(BufferDecoder, "b") == Some("")
  {
    SplitThree("a", "b", "c", '.');
    assert "a.b.c" == "a" + "." + "b" + "." + "c";
    AtobRejectsLoneChar();
    NodeDecodeAcceptsLoneChar();
  }

  /** The Node verifier throws only when the header parses to `null`. */
  lemma BufferThrowsOnlyOnNullHeader(rt: Runtime, secret: string, token: string)
    requires VerifyToken(rt, secret, BufferDecoder, token).Throws?
    ensures var parts := Split(token, '.');
      rt.parse(DecodeSegment(BufferDecoder, parts[0]).value) == Some(JNull)
  {
  }
}

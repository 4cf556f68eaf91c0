/**
 * The refresh-token edge function: a token that verifies and has not
 * expired is exchanged for a new one carrying the same identity claims and
 * a fresh 365-day expiry.
 */
module RefreshToken {
  import opened Wrappers
  import opened Text
  import opened Js
  import opened SessionToken

  /** The handler's reply: 200 with a new token, or an error status with its message. */
  datatype Response = Refreshed(token: string) | Rejected(status: int, message: string)

  /** The identity claims copied from a verified body; an absent claim stays undefined. */
  function SeedOf(claims: Json): (seed: Seed)
    requires !claims.JNull?
    ensures seed.sub == Prop(claims, "sub") && seed.email == Prop(claims, "email")
    ensures seed.isAdmin == Prop(claims, "isAdmin")
  {
    Seed(Prop(claims, "sub"), Prop(claims, "email"), Prop(claims, "isAdmin"))
  }

  /**
   * The POST handler after the request body is read; `token` is absent when
   * the body has no `token` field, and `nowMs` is `Date.now()`.
   */
  function Handle(rt: Runtime, secret: string, token: Option<string>, nowMs: int): (r: Response)
    ensures r == Rejected(401, "Missing token") <==> token.None? || token.value == ""
    ensures r == Rejected(500, "Failed to refresh token") <==>
      token.Some? && token.value != "" && VerifyToken(rt, secret, AtobDecoder, token.value).Throws?
    ensures r.Refreshed? ==>
      && token.Some?
      && var v := VerifyToken(rt, secret, AtobDecoder, token.value);
      && v.Valid? && Truthy(v.body) && !Expired(rt, v.body, nowMs)
      && r.token == CreateSessionToken(rt, secret, SeedOf(v.body), RefreshLifetime, nowMs)
  {
    if token.None? || token.value == "" then Rejected(401, "Missing token")
    else
      match VerifyToken(rt, secret, AtobDecoder, token.value)
      case Throws => Rejected(500, "Failed to refresh token")
      case Invalid => Rejected(401, "Invalid token")
      case Valid(claims) =>
        if !Truthy(claims) then Rejected(401, "Invalid token")
        else if Expired(rt, claims, nowMs) then Rejected(401, "Token expired")
        else Refreshed(CreateSessionToken(rt, secret, SeedOf(claims), RefreshLifetime, nowMs))
  }

  /** Expiry is strict: a token whose `exp * 1000` equals now is still refreshed. */
  lemma ExpiryBoundary(rt: Runtime, secret: string, token: string, nowMs: int, claims: Json, exp: int)
    requires token != "" && VerifyToken(rt, secret, AtobDecoder, token) == Valid(claims)
    requires Truthy(claims) && Prop(claims, "exp") == Some(JNum(exp))
    ensures Handle(rt, secret, Some(token), nowMs) == Rejected(401, "Token expired") <==> exp * 1000 < nowMs
    ensures Handle(rt, secret, Some(token), nowMs).Refreshed? <==> exp * 1000 >= nowMs
  {
  }

  /**
   * A refreshed token verifies to the old sub, email and isAdmin with
   * exp = floor(now / 1000) + 31,536,000, when those claims are primitive and ASCII.
   */
  lemma KeepsIdentity(rt: Runtime, secret: string, token: string, nowMs: int, claims: Json)
    requires ParseInvertsStringify(rt) && StringifyKeepsAscii(rt)
    requires VerifyToken(rt, secret, AtobDecoder, token) == Valid(claims) && !claims.JNull?
    requires SeedPrimitive(SeedOf(claims)) && SeedAscii(SeedOf(claims))
    requires Handle(rt, secret, Some(token), nowMs).Refreshed?
    ensures var renewed := VerifyToken(rt, secret, AtobDecoder, Handle(rt, secret, Some(token), nowMs).token);
      && renewed.Valid? && !renewed.body.JNull?
      && Prop(renewed.body, "sub") == Prop(claims, "sub")
      && Prop(renewed.body, "email") == Prop(claims, "email")
      && Prop(renewed.body, "isAdmin") == Prop(claims, "isAdmin")
      && Prop(renewed.body, "exp") == Some(JNum(nowMs / 1000 + 31536000))
  {
    var seed := SeedOf(claims);
    AtobRoundTripToken(rt, secret, seed, RefreshLifetime, nowMs);
    ClaimsProps(seed, Expiry(nowMs, RefreshLifetime));
  }

  /** A segment `atob` rejects is a server error, not a 401. */
  lemma UndecodableIsServerError(rt: Runtime, secret: string, nowMs: int)
    ensures Handle(rt, secret, Some("a.b.c"), nowMs) == Rejected(500, "Failed to refresh token")
  {
    LoneCharSegment(rt, secret);
  }

  /** A token minted at OTP verification is refreshed until its 12 hours are over, and then refused. */
  lemma MintedTokenWindow(rt: Runtime, secret: string, seed: Seed, mintedMs: int, nowMs: int)
    requires ParseInvertsStringify(rt) && StringifyKeepsAscii(rt)
    requires SeedPrimitive(seed) && SeedAscii(seed)
    ensures var t := CreateSessionToken(rt, secret, seed, MintLifetime, mintedMs);
      Handle(rt, secret, Some(t), nowMs).Refreshed? <==> (mintedMs / 1000 + 43200) * 1000 >= nowMs
  {
    var t := CreateSessionToken(rt, secret, seed, MintLifetime, mintedMs);
    var e := Expiry(mintedMs, MintLifetime);
    AtobRoundTripToken(rt, secret, seed, MintLifetime, mintedMs);
    ClaimsProps(seed, e);
    assert t != "" by { assert |Split(t, '.')| == 3; }
    ExpiryBoundary(rt, secret, t, nowMs, Claims(seed, e), e);
  }
}

/**
 * The browser side of the session: reading a token's expiry without
 * verifying it, planning when to refresh it, and the provider state that
 * the refresh updates.
 */
module Session {
  import opened Wrappers
  import opened Text
  import opened Base64
  import opened Js
  import opened SessionToken

  // ---------------------------------------------------------------------
  // getTokenExpiry

  /** `body.padEnd(Math.ceil(body.length / 4) * 4, '=')`. */
  function Repad(s: string): (r: string)
    ensures |r| % 4 == 0 && |s| <= |r| < |s| + 4
    ensures r[..|s|] == s && forall i :: |s| <= i < |r| ==> r[i] == '='
  {
    PadEnd(s, (|s| + 3) / 4 * 4, '=')
  }

  lemma {:induction false} NoSpaceKept(s: string)
    requires forall i :: 0 <= i < |s| ==> !IsAsciiSpace(s[i])
    ensures RemoveAsciiSpace(s) == s
  {
    if |s| > 0 {
      NoSpaceKept(s[1..]);
      assert [s[0]] + s[1..] == s;
    }
  }

  /** Standard text followed by at most two '=' has no ASCII whitespace. */
  lemma PaddedNoSpace(f: string, k: nat)
    requires AllStd(f) && k <= 2
    ensures forall i :: 0 <= i < |f + "=="[..k]| ==> !IsAsciiSpace((f + "=="[..k])[i])
  {
    var p := f + "=="[..k];
    forall i | 0 <= i < |p| ensures !IsAsciiSpace(p[i]) {
      if i < |f| {
        assert p[i] == f[i] && StdValue(f[i]).Some?;
      }
    }
  }

  /** Dropping the padding of standard text followed by at most two '=' gives the text back. */
  lemma DropPaddingOfPadded(f: string, k: nat)
    requires AllStd(f) && k <= 2
    ensures DropPadding(f + "=="[..k]) == f
  {
    var p := f + "=="[..k];
    if k == 2 {
      assert p[|p| - 2..] == "==" && p[..|p| - 2] == f;
    } else if k == 1 {
      if |f| > 0 {
        assert p[|p| - 2] == f[|f| - 1];
        assert f[|f| - 1] != '=' by { assert StdValue(f[|f| - 1]).Some?; }
      }
      assert p[..|p| - 1] == f;
    } else {
      assert p == f;
      if |f| > 0 {
        assert f[|f| - 1] != '=' by { assert StdValue(f[|f| - 1]).Some?; }
        assert f[|f| - 1..] != "=";
      }
    }
  }

  /** Padding standard text that has no '=' of its own and dropping the padding again gives it back. */
  lemma DropRepad(f: string)
    requires AllStd(f) && |f| % 4 != 1
    ensures RemoveAsciiSpace(Repad(f)) == Repad(f)
    ensures DropPadding(Repad(f)) == f
  {
    var p := Repad(f);
    var k := |p| - |f|;
    assert k <= 2 by {
      var q, r := |f| / 4, |f| % 4;
      assert |f| == 4 * q + r;
      assert (|f| + 3) / 4 == if r == 0 then q else q + 1;
    }
    assert p == f + "=="[..k];
    PaddedNoSpace(f, k);
    NoSpaceKept(p);
    DropPaddingOfPadded(f, k);
  }

  /** Restoring the padding of a token segment and decoding it with `atob` gives the encoded bytes back. */
  lemma RepadRoundTrip(b: seq<byte>)
    ensures Atob(Repad(FromUrl(UrlEncode(b)))) == Some(Latin1(b))
  {
    var f := FromUrl(UrlEncode(b));
    FromUrlEncode(b);
    SextetsRoundTrip(b);
    DropRepad(f);
  }

  /** `x * 1000` on a number that may be NaN. */
  function Times1000(n: JsNum): JsNum {
    match n
    case Num(v) => Num(v * 1000)
    case NaN => NaN
  }

  /**
   * `getTokenExpiry`: the payload's `exp * 1000` when `exp` is truthy, and
   * null for a token without three parts, a payload that does not decode
   * or parse, a `null` payload (whose `.exp` throws inside the `try`) or a
   * falsy `exp`. The signature is not checked.
   */
  function TokenExpiry(rt: Runtime, token: string): (r: Option<JsNum>)
    ensures r.Some? ==> |Split(token, '.')| == 3
    ensures r.Some? ==>
      && var text := Atob(Repad(FromUrl(Split(token, '.')[1])));
      && text.Some? && rt.parse(text.value).Some?
      && var payload := rt.parse(text.value).value;
      && !payload.JNull? && Prop(payload, "exp").Some? && Truthy(Prop(payload, "exp").value)
      && r.value == Times1000(ToNumber(rt, Prop(payload, "exp")))
  {
    var parts := Split(token, '.');
    if |parts| != 3 then None
    else
      match Atob(Repad(FromUrl(parts[1])))
      case None => None
      case Some(json) =>
        match rt.parse(json)
        case None => None
        case Some(payload) =>
          if payload.JNull? then None
          else
            match Prop(payload, "exp")
            case None => None
            case Some(e) => if Truthy(e) then Some(Times1000(ToNumber(rt, Some(e)))) else None
  }

  /** The client reads back the expiry a token was minted with, in milliseconds; an `exp` of 0 reads as none. */
  lemma MintedExpiry(rt: Runtime, secret: string, seed: Seed, lifetime: int, mintedMs: int)
    requires ParseInvertsStringify(rt) && StringifyKeepsAscii(rt)
    requires SeedPrimitive(seed) && SeedAscii(seed)
    ensures var e := Expiry(mintedMs, lifetime);
      TokenExpiry(rt, CreateSessionToken(rt, secret, seed, lifetime, mintedMs))
        == if e != 0 then Some(Num(e * 1000)) else None
  {
    var e := Expiry(mintedMs, lifetime);
    var claims := Claims(seed, e);
    var bt := rt.stringify(claims);
    var token := CreateSessionToken(rt, secret, seed, lifetime, mintedMs);
    CreatedSegments(rt, secret, seed, lifetime, mintedMs);
    assert Split(token, '.')[1] == EncodeText(bt);
    ClaimsFlat(seed, e);
    ClaimsAscii(seed, e);
    assert rt.parse(bt) == Some(claims) && IsAscii(bt);
    RepadRoundTrip(Utf8Encode(bt));
    AsciiLatin1Utf8(bt);
    assert Atob(Repad(FromUrl(EncodeText(bt)))) == Some(bt);
    ClaimsProps(seed, e);
    ExpiryOfPayload(rt, token, bt, claims, e);
  }

  /** A token whose payload decodes and parses to an object with a numeric `exp` has that expiry. */
  lemma ExpiryOfPayload(rt: Runtime, token: string, text: string, payload: Json, e: int)
    requires |Split(token, '.')| == 3
    requires Atob(Repad(FromUrl(Split(token, '.')[1]))) == Some(text)
    requires rt.parse(text) == Some(payload) && !payload.JNull?
    requires Prop(payload, "exp") == Some(JNum(e))
    ensures TokenExpiry(rt, token) == if e != 0 then Some(Num(e * 1000)) else None
  {
    assert Truthy(JNum(e)) <==> e != 0;
    assert ToNumber(rt, Some(JNum(e))) == Num(e);
  }

  // ---------------------------------------------------------------------
  // The refresh effect

  /** How early before expiry a refresh is scheduled: five minutes. */
  const RefreshLeadMs: int := 5 * 60 * 1000

  datatype Plan = NoRefresh | RefreshNow | RefreshAfter(delayMs: int)

  /**
   * The refresh effect for the current token: nothing without a token or a
   * usable expiry, an immediate refresh once the expiry has passed, and
   * otherwise a timer `max(exp - now - 5 min, 0)` long.
   */
  function RefreshPlan(rt: Runtime, token: Option<string>, nowMs: int): (p: Plan)
    ensures p == NoRefresh <==>
      token.None? || token.value == "" || !(TokenExpiry(rt, token.value).Some? && TokenExpiry(rt, token.value).value.Num?
        && TokenExpiry(rt, token.value).value.n != 0)
    ensures p.RefreshNow? ==> TokenExpiry(rt, token.value).value.n <= nowMs
    ensures p.RefreshAfter? ==>
      && var exp := TokenExpiry(rt, token.value).value.n;
      && exp > nowMs
      && p.delayMs >= 0
      && p.delayMs >= exp - nowMs - RefreshLeadMs
      && (p.delayMs == 0 || p.delayMs == exp - nowMs - RefreshLeadMs)
  {
    if token.None? || token.value == "" then NoRefresh
    else
      match TokenExpiry(rt, token.value)
      case None => NoRefresh
      case Some(NaN) => NoRefresh
      case Some(Num(exp)) =>
        if exp == 0 then NoRefresh
        else if exp <= nowMs then RefreshNow
        else RefreshAfter(if exp - nowMs - RefreshLeadMs > 0 then exp - nowMs - RefreshLeadMs else 0)
  }

  /**
   * For a minted token that has not yet expired, the timer fires while the
   * server still accepts the token, and no earlier than five minutes
   * before its expiry.
   */
  lemma RefreshBeforeExpiry(rt: Runtime, secret: string, seed: Seed, lifetime: int, mintedMs: int, nowMs: int)
    requires ParseInvertsStringify(rt) && StringifyKeepsAscii(rt)
    requires SeedPrimitive(seed) && SeedAscii(seed)
    requires var e := Expiry(mintedMs, lifetime); e != 0 && nowMs < e * 1000
    ensures var t := CreateSessionToken(rt, secret, seed, lifetime, mintedMs);
      var p := RefreshPlan(rt, Some(t), nowMs);
      var e := Expiry(mintedMs, lifetime);
      && p.RefreshAfter?
      && !Expired(rt, Claims(seed, e), nowMs + p.delayMs)
      && (p.delayMs > 0 ==> nowMs + p.delayMs == e * 1000 - RefreshLeadMs)
  {
    var e := Expiry(mintedMs, lifetime);
    var t := CreateSessionToken(rt, secret, seed, lifetime, mintedMs);
    MintedExpiry(rt, secret, seed, lifetime, mintedMs);
    assert TokenExpiry(rt, t) == Some(Num(e * 1000));
    var p := RefreshPlan(rt, Some(t), nowMs);
    assert p.RefreshAfter?;
    ClaimsProps(seed, e);
    ExpiredAt(rt, Claims(seed, e), e, nowMs + p.delayMs);
  }

  /** A minted token already past its expiry is refreshed at once. */
  lemma RefreshNowWhenExpired(rt: Runtime, secret: string, seed: Seed, lifetime: int, mintedMs: int, nowMs: int)
    requires ParseInvertsStringify(rt) && StringifyKeepsAscii(rt)
    requires SeedPrimitive(seed) && SeedAscii(seed)
    requires var e := Expiry(mintedMs, lifetime); e != 0 && e * 1000 <= nowMs
    ensures RefreshPlan(rt, Some(CreateSessionToken(rt, secret, seed, lifetime, mintedMs)), nowMs) == RefreshNow
  {
    MintedExpiry(rt, secret, seed, lifetime, mintedMs);
  }

  // ---------------------------------------------------------------------
  // The provider state

  datatype User = User(
    id: string,
    email: string,
    isAdmin: bool,
    fullName: Option<string>,
    asuId: Option<string>,
    discipline: Option<string>)

  datatype SessionValue = SessionValue(token: string, user: User)

  /** The state `SessionProvider` holds: the current session or `null`. */
  class SessionProvider {
    var session: Option<SessionValue>

    constructor(initial: Option<SessionValue>)
      ensures session == initial
    {
      session := initial;
    }

    /** The token the refresh effect watches (`session?.token`). */
    function Token(): Option<string>
      reads this
    {
      if session.Some? then Some(session.value.token) else None
    }

    /** `setSession(next)`. */
    method SetSession(next: Option<SessionValue>)
      modifies this
      ensures session == next
    {
      session := next;
    }

    /** `clearSession()`. */
    method ClearSession()
      modifies this
      ensures session == None
    {
      session := None;
    }

    /**
     * The end of a scheduled refresh: `Some(t)` when the refresh call
     * returned the token `t`, `None` when it threw. Success replaces only
     * the token of the session current at that moment; a cleared session
     * stays cleared, and a failure changes nothing.
     */
    method ApplyRefresh(outcome: Option<string>)
      modifies this
      ensures outcome.None? ==> session == old(session)
      ensures outcome.Some? && old(session).None? ==> session == None
      ensures outcome.Some? && old(session).Some? ==>
        session == Some(SessionValue(outcome.value, old(session).value.user))
    {
      if outcome.Some? && session.Some? {
        session := Some(session.value.(token := outcome.value));
      }
    }

    /**
     * The effect run for the current session at time `nowMs`: nothing
     * without a signed-in session whose token carries a usable expiry,
     * an immediate refresh once that expiry has passed, and otherwise a
     * timer that fires five minutes before it, or at once when less than
     * five minutes remain.
     */
    method Plan(rt: Runtime, nowMs: int) returns (p: Plan)
      ensures session.None? || session.value.token == "" ==> p == NoRefresh
      ensures session.Some? && session.value.token != "" ==>
        var exp := TokenExpiry(rt, session.value.token);
        && (exp.None? || exp.value.NaN? || exp.value.n == 0 ==> p == NoRefresh)
        && (exp.Some? && exp.value.Num? && exp.value.n != 0 ==>
              && (exp.value.n <= nowMs ==> p == RefreshNow)
              && (exp.value.n > nowMs && exp.value.n - nowMs <= RefreshLeadMs ==> p == RefreshAfter(0))
              && (exp.value.n - nowMs > RefreshLeadMs ==> p == RefreshAfter(exp.value.n - nowMs - RefreshLeadMs)))
    {
      p := RefreshPlan(rt, Token(), nowMs);
    }

    /**
     * One turn of the refresh cycle: the scheduled refresh returns a newly
     * minted token, the provider stores it, and the effect re-runs for it.
     * A signed-in user stays signed in with the new token, and the next
     * refresh is again scheduled while that token is still accepted; a
     * session cleared in the meantime stays cleared and nothing is
     * scheduled.
     */
    method RefreshCycle(rt: Runtime, secret: string, seed: Seed, lifetime: int, mintedMs: int, nowMs: int)
      returns (p: Plan)
      requires ParseInvertsStringify(rt) && StringifyKeepsAscii(rt)
      requires SeedPrimitive(seed) && SeedAscii(seed)
      requires var e := Expiry(mintedMs, lifetime); e != 0 && nowMs < e * 1000
      modifies this
      ensures old(session).None? ==> session == None && p == NoRefresh
      ensures old(session).Some? ==>
        && session == Some(SessionValue(CreateSessionToken(rt, secret, seed, lifetime, mintedMs), old(session).value.user))
        && p.RefreshAfter?
        && !Expired(rt, Claims(seed, Expiry(mintedMs, lifetime)), nowMs + p.delayMs)
    {
      var t := CreateSessionToken(rt, secret, seed, lifetime, mintedMs);
      ApplyRefresh(Some(t));
      RefreshBeforeExpiry(rt, secret, seed, lifetime, mintedMs, nowMs);
      p := Plan(rt, nowMs);
    }
  }
}

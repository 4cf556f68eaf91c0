/**
 * The record-rsvp handler, deployed twice: as an edge function that decodes
 * token segments with `atob` and as a Node route that decodes them with
 * `Buffer`. Both authenticate the session token, then either upsert the
 * caller's answer into `rsvps` or read it back.
 */
module Rsvp {
  import opened Wrappers
  import opened Text
  import opened Js
  import opened Collections
  import opened Tables
  import opened SessionToken

  // ---------------------------------------------------------------------
  // The token gate

  datatype Gate = Admitted(claims: Json) | Denied(status: int, message: string)

  /**
   * The checks after `verifyToken` has returned or thrown: a verdict that is
   * not a truthy body is refused, and so is a body whose `exp * 1000` is
   * before now; an exception lands in the outer `catch`.
   */
  function Admit(rt: Runtime, v: Verdict, nowMs: int): (g: Gate)
    ensures g == Denied(500, "Failed to process RSVP") <==> v.Throws?
    ensures g == Denied(401, "Invalid token") <==> v.Invalid? || (v.Valid? && !Truthy(v.body))
    ensures g == Denied(401, "Token expired") <==> v.Valid? && Truthy(v.body) && Expired(rt, v.body, nowMs)
    ensures g.Admitted? <==> v.Valid? && Truthy(v.body) && !Expired(rt, v.body, nowMs)
    ensures g.Admitted? ==> g.claims == v.body
  {
    match v
    case Throws => Denied(500, "Failed to process RSVP")
    case Invalid => Denied(401, "Invalid token")
    case Valid(claims) =>
      if !Truthy(claims) then Denied(401, "Invalid token")
      else if Expired(rt, claims, nowMs) then Denied(401, "Token expired")
      else Admitted(claims)
  }

  /** The token gate: a missing or empty token is refused before `verifyToken` runs. */
  function Authenticate(rt: Runtime, secret: string, d: Decoder, token: Option<string>, nowMs: int): (g: Gate)
    ensures g == Denied(401, "Missing token") <==> token.None? || token.value == ""
  {
    if token.None? || token.value == "" then Denied(401, "Missing token")
    else Admit(rt, VerifyToken(rt, secret, d, token.value), nowMs)
  }

  /** Both deployments admit a token minted by verify-otp or refresh-token, with the same claims. */
  lemma DeploymentsAgreeOnMinted(rt: Runtime, secret: string, seed: Seed, lifetime: int, mintedMs: int, nowMs: int)
    requires ParseInvertsStringify(rt) && StringifyKeepsAscii(rt)
    requires SeedPrimitive(seed) && SeedAscii(seed)
    ensures var t := Some(CreateSessionToken(rt, secret, seed, lifetime, mintedMs));
      && Authenticate(rt, secret, AtobDecoder, t, nowMs) == Authenticate(rt, secret, BufferDecoder, t, nowMs)
      && (Authenticate(rt, secret, AtobDecoder, t, nowMs).Admitted? <==> Expiry(mintedMs, lifetime) * 1000 >= nowMs)
  {
    var e := Expiry(mintedMs, lifetime);
    var t := CreateSessionToken(rt, secret, seed, lifetime, mintedMs);
    var c := Claims(seed, e);
    AtobRoundTripToken(rt, secret, seed, lifetime, mintedMs);
    BufferRoundTripToken(rt, secret, seed, lifetime, mintedMs);
    ClaimsProps(seed, e);
    assert t != "" by { assert |Split(t, '.')| == 3; }
    assert Truthy(c);
    ExpiredAt(rt, c, e, nowMs);
    assert Authenticate(rt, secret, AtobDecoder, Some(t), nowMs) == Admit(rt, Valid(c), nowMs);
    assert Authenticate(rt, secret, BufferDecoder, Some(t), nowMs) == Admit(rt, Valid(c), nowMs);
  }

  /**
   * A segment that is not valid base64 is a server error for the `atob`
   * deployment; the `Buffer` deployment decodes it to the empty text,
   * which `JSON.parse` refuses, so it answers 401.
   */
  lemma DeploymentsDisagreeOnBadBase64(rt: Runtime, secret: string, nowMs: int)
    requires rt.parse("") == None
    ensures Authenticate(rt, secret, AtobDecoder, Some("a.b.c"), nowMs) == Denied(500, "Failed to process RSVP")
    ensures Authenticate(rt, secret, BufferDecoder, Some("a.b.c"), nowMs) == Denied(401, "Invalid token")
  {
    LoneCharSegment(rt, secret);
    assert VerifyToken(rt, secret, BufferDecoder, "a.b.c") == Invalid;
  }

  /** `claims.sub` as the `user_id` key, when it is a string. */
  function SubjectId(claims: Json): Option<string>
    requires !claims.JNull?
  {
    match Prop(claims, "sub")
    case Some(JStr(s)) => Some(s)
    case _ => None
  }

  // ---------------------------------------------------------------------
  // The rsvps table

  function RowsOf(rows: seq<RsvpRow>, userId: string): seq<RsvpRow> {
    Filter(rows, (r: RsvpRow) => r.userId == userId)
  }

  /** The unique constraint on `user_id` that `onConflict: 'user_id'` relies on. */
  predicate UniqueUsers(rows: seq<RsvpRow>) {
    forall i, j :: 0 <= i < j < |rows| ==> rows[i].userId != rows[j].userId
  }

  predicate HasUser(rows: seq<RsvpRow>, userId: string) {
    exists i :: 0 <= i < |rows| && rows[i].userId == userId
  }

  /** `upsert({ user_id, will_attend }, { onConflict: 'user_id' })`. */
  function Upsert(rows: seq<RsvpRow>, row: RsvpRow): seq<RsvpRow> {
    if HasUser(rows, row.userId) then
      seq(|rows|, i requires 0 <= i < |rows| => if rows[i].userId == row.userId then row else rows[i])
    else rows + [row]
  }

  lemma {:induction false} RowsOfNone(rows: seq<RsvpRow>, userId: string)
    requires !HasUser(rows, userId)
    ensures RowsOf(rows, userId) == []
  {
    if |rows| > 0 {
      var init := rows[..|rows| - 1];
      assert !HasUser(init, userId) by {
        forall i | 0 <= i < |init| ensures init[i].userId != userId {
          assert init[i] == rows[i];
        }
      }
      RowsOfNone(init, userId);
    }
  }

  /** With the constraint, the rows of a present user are that one row. */
  lemma {:induction false} RowsOfUnique(rows: seq<RsvpRow>, i: nat)
    requires UniqueUsers(rows) && i < |rows|
    ensures RowsOf(rows, rows[i].userId) == [rows[i]]
  {
    var init := rows[..|rows| - 1];
    var u := rows[i].userId;
    if i == |rows| - 1 {
      RowsOfNone(init, u);
    } else {
      RowsOfUnique(init, i);
    }
  }

  /** Rows that agree wherever a user's rows sit have the same rows for that user. */
  lemma {:induction false} RowsOfPointwise(s: seq<RsvpRow>, t: seq<RsvpRow>, userId: string)
    requires |s| == |t|
    requires forall i :: 0 <= i < |s| ==> (s[i].userId == userId || t[i].userId == userId) ==> s[i] == t[i]
    ensures RowsOf(s, userId) == RowsOf(t, userId)
  {
    if |s| > 0 {
      RowsOfPointwise(s[..|s| - 1], t[..|t| - 1], userId);
    }
  }

  lemma UpsertKeepsUnique(rows: seq<RsvpRow>, row: RsvpRow)
    requires UniqueUsers(rows)
    ensures UniqueUsers(Upsert(rows, row))
    ensures |Upsert(rows, row)| == |rows| + (if HasUser(rows, row.userId) then 0 else 1)
  {
  }

  /** After an upsert the user's one row is the new answer. */
  lemma UpsertStored(rows: seq<RsvpRow>, row: RsvpRow)
    requires UniqueUsers(rows)
    ensures RowsOf(Upsert(rows, row), row.userId) == [row]
  {
    var r := Upsert(rows, row);
    UpsertKeepsUnique(rows, row);
    if HasUser(rows, row.userId) {
      var i :| 0 <= i < |rows| && rows[i].userId == row.userId;
      RowsOfUnique(r, i);
    } else {
      RowsOfUnique(r, |rows|);
    }
  }

  /** An upsert leaves every other user's rows as they were. */
  lemma UpsertOthersUnchanged(rows: seq<RsvpRow>, row: RsvpRow, userId: string)
    requires userId != row.userId
    ensures RowsOf(Upsert(rows, row), userId) == RowsOf(rows, userId)
  {
    if HasUser(rows, row.userId) {
      RowsOfPointwise(Upsert(rows, row), rows, userId);
    } else {
      FilterAppend(rows, [row], (r: RsvpRow) => r.userId == userId);
      assert RowsOf([row], userId) == [];
    }
  }

  /** Sending the same answer twice leaves the table as after the first. */
  lemma UpsertIdempotent(rows: seq<RsvpRow>, row: RsvpRow)
    ensures Upsert(Upsert(rows, row), row) == Upsert(rows, row)
  {
    var r := Upsert(rows, row);
    var r2 := Upsert(r, row);
    if HasUser(rows, row.userId) {
      var k :| 0 <= k < |rows| && rows[k].userId == row.userId;
      assert r[k].userId == row.userId;
    } else {
      assert r[|rows|].userId == row.userId;
    }
    assert |r2| == |r|;
    forall i | 0 <= i < |r|
      ensures r2[i] == r[i]
    {
    }
  }

  // ---------------------------------------------------------------------
  // The handler

  datatype RsvpReply = Answered(rsvp: Option<RsvpRow>) | Failed(status: int, message: string)

  predicate IsAnswer(w: Option<string>) {
    w == Some("yes") || w == Some("no")
  }

  /**
   * The POST handler. `storeFails` is whether the datastore reports an
   * error for the query it receives; a `sub` that is not a string is
   * refused by the datastore too.
   */
  method RecordRsvp(rsvps: Table<RsvpRow>, rt: Runtime, secret: string, d: Decoder,
                    action: Option<string>, token: Option<string>, willAttend: Option<string>,
                    nowMs: int, storeFails: bool)
    returns (reply: RsvpReply)
    modifies rsvps
    ensures var g := Authenticate(rt, secret, d, token, nowMs);
      g.Denied? ==> reply == Failed(g.status, g.message) && rsvps.rows == old(rsvps.rows)
    ensures var g := Authenticate(rt, secret, d, token, nowMs);
      g.Admitted? && action == Some("set") && !IsAnswer(willAttend) ==>
        reply == Failed(400, "will_attend required") && rsvps.rows == old(rsvps.rows)
    ensures var g := Authenticate(rt, secret, d, token, nowMs);
      g.Admitted? && (SubjectId(g.claims).None? || storeFails) && (action == Some("set") ==> IsAnswer(willAttend)) ==>
        reply == Failed(500, "Failed to process RSVP") && rsvps.rows == old(rsvps.rows)
    ensures var g := Authenticate(rt, secret, d, token, nowMs);
      g.Admitted? && SubjectId(g.claims).Some? && !storeFails && action == Some("set") && IsAnswer(willAttend) ==>
        var row := RsvpRow(SubjectId(g.claims).value, willAttend.value);
        reply == Answered(Some(row)) && rsvps.rows == Upsert(old(rsvps.rows), row)
    ensures var g := Authenticate(rt, secret, d, token, nowMs);
      g.Admitted? && SubjectId(g.claims).Some? && !storeFails && action != Some("set") ==>
        var mine := RowsOf(rsvps.rows, SubjectId(g.claims).value);
        && rsvps.rows == old(rsvps.rows)
        && reply == if |mine| > 1 then Failed(500, "Failed to process RSVP") else Answered(MaybeSingle(mine))
    ensures UniqueUsers(old(rsvps.rows)) ==> UniqueUsers(rsvps.rows)
  {
    var g := Authenticate(rt, secret, d, token, nowMs);
    if g.Denied? {
      return Failed(g.status, g.message);
    }
    var sub := SubjectId(g.claims);
    if action == Some("set") {
      if !IsAnswer(willAttend) {
        return Failed(400, "will_attend required");
      }
      if sub.None? || storeFails {
        return Failed(500, "Failed to process RSVP");
      }
      var row := RsvpRow(sub.value, willAttend.value);
      if UniqueUsers(rsvps.rows) {
        UpsertKeepsUnique(rsvps.rows, row);
      }
      rsvps.rows := Upsert(rsvps.rows, row);
      return Answered(Some(row));
    }
    if sub.None? || storeFails {
      return Failed(500, "Failed to process RSVP");
    }
    var mine := RowsOf(rsvps.rows, sub.value);
    if |mine| > 1 {
      return Failed(500, "Failed to process RSVP");
    }
    return Answered(MaybeSingle(mine));
  }

  /** Under the constraint, reading back after a successful set gives the answer just stored. */
  lemma SetThenGet(rows: seq<RsvpRow>, row: RsvpRow)
    requires UniqueUsers(rows)
    ensures var mine := RowsOf(Upsert(rows, row), row.userId);
      !(|mine| > 1) && MaybeSingle(mine) == Some(row)
  {
    UpsertStored(rows, row);
  }
}

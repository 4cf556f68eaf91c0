/**
 * The one-time-password lifecycle over the `otps`, `users` and `admins`
 * tables: request-otp issues a six-digit code and stores only its salted
 * digest, and verify-otp accepts the newest unused code for an address,
 * marks it used and mints a session token.
 */
module Otp {
  import opened Wrappers
  import opened Text
  import opened Js
  import opened Digits
  import opened Collections
  import opened Tables
  import opened SessionToken

  /** OTP_EXP_MINUTES. */
  const OtpExpMinutes: int := 10

  /** How long an issued code stays valid, in milliseconds. */
  const OtpLifetimeMs: int := OtpExpMinutes * 60 * 1000

  /**
   * The e-mail address a request names, trimmed and lowercased; a missing
   * field reads as empty, which both handlers refuse.
   */
  function NormalizedEmail(field: Option<string>): string {
    ToLower(Trim(field.GetOr("")))
  }

  /** request-otp admits only non-empty addresses ending in "@asu.edu". */
  predicate IsAsuEmail(email: string) {
    email != "" && EndsWith(email, "@asu.edu")
  }

  // ---------------------------------------------------------------------
  // The code and its digest

  lemma PaddedDigits(d: string)
    requires 1 <= |d| <= 6 && AllDigits(d)
    ensures var p := PadStart(d, 6, '0');
      |p| == 6 && AllDigits(p) && DigitsValue(p) == DigitsValue(d)
  {
    var p := PadStart(d, 6, '0');
    if |d| < 6 {
      var z := p[..6 - |d|];
      assert p == z + d;
      LeadingZerosValue(z, d);
    }
  }

  /** `generateOtp`: `String(random % 1_000_000).padStart(6, '0')`. */
  function GenerateOtp(random: nat): (code: string)
    ensures |code| == 6 && AllDigits(code)
    ensures DigitsValue(code) == random % 1000000
  {
    var n := random % 1000000;
    assert Pow10(6) == 1000000;
    DecimalStringLength(n, 6);
    DecimalStringValue(n);
    PaddedDigits(DecimalString(n));
    PadStart(DecimalString(n), 6, '0')
  }

  lemma {:induction false} DigitsValueBound(s: string)
    requires AllDigits(s)
    ensures DigitsValue(s) < Pow10(|s|)
  {
    if |s| > 0 {
      DigitsValueBound(s[..|s| - 1]);
    }
  }

  /** Every six-digit code is issued for exactly the randoms with its value as residue. */
  lemma GenerateOtpCovers(code: string, random: nat)
    requires |code| == 6 && AllDigits(code)
    ensures GenerateOtp(random) == code <==> random % 1000000 == DigitsValue(code)
  {
    DigitsValueBound(code);
    assert Pow10(6) == 1000000;
    if random % 1000000 == DigitsValue(code) {
      DigitsValueInjective(GenerateOtp(random), code);
    }
  }

  /** The text hashed for an address and code: `${email}:${otp}:${OTP_SALT}`, UTF-8 encoded. */
  function HashInput(salt: string, email: string, otp: string): seq<byte> {
    Utf8Encode(email + ":" + otp + ":" + salt)
  }

  /** `hashOtp`: the SHA-256 digest of the input as lowercase hex, two characters per byte. */
  function HashOtp(rt: Runtime, salt: string, email: string, otp: string): (h: string)
    ensures |h| == 2 * |rt.sha256(HashInput(salt, email, otp))| && IsLowerHex(h)
  {
    HexEncode(rt.sha256(HashInput(salt, email, otp)))
  }

  /** Two stored hashes agree exactly when the digests agree. */
  lemma HashOtpMatches(rt: Runtime, salt: string, e1: string, o1: string, e2: string, o2: string)
    ensures HashOtp(rt, salt, e1, o1) == HashOtp(rt, salt, e2, o2)
        <==> rt.sha256(HashInput(salt, e1, o1)) == rt.sha256(HashInput(salt, e2, o2))
  {
    if HashOtp(rt, salt, e1, o1) == HashOtp(rt, salt, e2, o2) {
      HexEncodeInjective(rt.sha256(HashInput(salt, e1, o1)), rt.sha256(HashInput(salt, e2, o2)));
    }
  }

  // ---------------------------------------------------------------------
  // Rows

  /** The row request-otp inserts. */
  function IssuedRow(rt: Runtime, salt: string, id: string, email: string, code: string, nowMs: int): OtpRow {
    OtpRow(id, email, HashOtp(rt, salt, email, code), nowMs + OtpLifetimeMs, false)
  }

  function OtpIds(rows: seq<OtpRow>): set<string> {
    set i | 0 <= i < |rows| :: rows[i].id
  }

  predicate UniqueIds(rows: seq<OtpRow>) {
    forall i, j :: 0 <= i < j < |rows| ==> rows[i].id != rows[j].id
  }

  predicate Candidate(row: OtpRow, email: string) {
    row.email == email && !row.used
  }

  /** The row `eq(email).eq(used, false).order(created_at desc).limit(1)` returns, by index. */
  function NewestUnused(rows: seq<OtpRow>, email: string): (k: Option<nat>)
    ensures k.Some? ==> k.value < |rows| && Candidate(rows[k.value], email)
    ensures k.Some? ==> forall j :: k.value < j < |rows| ==> !Candidate(rows[j], email)
    ensures k.None? ==> forall j :: 0 <= j < |rows| ==> !Candidate(rows[j], email)
  {
    if |rows| == 0 then None
    else if Candidate(rows[|rows| - 1], email) then Some(|rows| - 1)
    else NewestUnused(rows[..|rows| - 1], email)
  }

  /** `update({ used: true }).eq('id', id)`. */
  function MarkUsed(rows: seq<OtpRow>, id: string): seq<OtpRow> {
    seq(|rows|, i requires 0 <= i < |rows| => if rows[i].id == id then rows[i].(used := true) else rows[i])
  }

  /** With distinct ids, marking a row's id changes that row alone, and only its `used` flag. */
  lemma MarkUsedExactlyOne(rows: seq<OtpRow>, k: nat)
    requires UniqueIds(rows) && k < |rows|
    ensures var r := MarkUsed(rows, rows[k].id);
      && |r| == |rows| && UniqueIds(r)
      && r[k] == rows[k].(used := true)
      && forall i :: 0 <= i < |rows| && i != k ==> r[i] == rows[i]
  {
  }

  /** Once marked, a row is never selected again, for any address. */
  lemma MarkedNotReselected(rows: seq<OtpRow>, id: string, email: string)
    ensures var k := NewestUnused(MarkUsed(rows, id), email);
      k.Some? ==> rows[k.value].id != id
  {
  }

  /** A freshly issued row is the one the next verification selects, it is live for ten minutes, and its code matches. */
  lemma IssuedRowSelected(rows: seq<OtpRow>, rt: Runtime, salt: string, id: string, email: string, code: string, issuedMs: int, nowMs: int)
    ensures var row := IssuedRow(rt, salt, id, email, code, issuedMs);
      && NewestUnused(rows + [row], email) == Some(|rows|)
      && (row.expiresAt < nowMs <==> nowMs > issuedMs + 600000)
      && HashOtp(rt, salt, email, code) == row.otpHash
  {
  }

  // ---------------------------------------------------------------------
  // request-otp

  /** The outcome of `sendOtpEmail`. */
  datatype Delivery = NotConfigured | ProviderRefused | Delivered

  /**
   * `sendOtpEmail`: without an API key or sender address it gives up before
   * any call; otherwise the provider's answer decides.
   */
  function SendOtpEmail(apiKey: string, sender: string, providerOk: bool): (d: Delivery)
    ensures d == NotConfigured <==> apiKey == "" || sender == ""
    ensures d == Delivered <==> apiKey != "" && sender != "" && providerOk
  {
    if apiKey == "" || sender == "" then NotConfigured
    else if providerOk then Delivered
    else ProviderRefused
  }

  /** A JSON reply: status, the `ok` flag and the message. */
  datatype Reply = Reply(status: int, ok: bool, message: string)

  /**
   * The request-otp POST handler. `random` is the `Uint32Array` draw, `id`
   * the `randomUUID()`, `insertFails` whether the datastore refuses the
   * insert and `providerOk` whether the mail API answers ok. `attempted`
   * tells whether the mail API was called.
   */
  method RequestOtp(otps: Table<OtpRow>, rt: Runtime, salt: string, emailField: Option<string>,
                    random: nat, id: string, nowMs: int, insertFails: bool,
                    apiKey: string, sender: string, providerOk: bool)
    returns (reply: Reply, attempted: bool)
    modifies otps
    ensures var email := NormalizedEmail(emailField);
      !IsAsuEmail(email) ==> reply == Reply(400, false, "ASU email required") && otps.rows == old(otps.rows) && !attempted
    ensures IsAsuEmail(NormalizedEmail(emailField)) && insertFails ==>
      reply == Reply(500, false, "Unable to send OTP") && otps.rows == old(otps.rows) && !attempted
    ensures var email := NormalizedEmail(emailField);
      IsAsuEmail(email) && !insertFails ==>
        && otps.rows == old(otps.rows) + [IssuedRow(rt, salt, id, email, GenerateOtp(random), nowMs)]
        && attempted == (apiKey != "" && sender != "")
        && reply == if SendOtpEmail(apiKey, sender, providerOk) == Delivered
                    then Reply(200, true, "OTP sent to your inbox")
                    else Reply(500, false, "Unable to send OTP")
    ensures attempted ==> |otps.rows| == |old(otps.rows)| + 1
    ensures UniqueIds(old(otps.rows)) && id !in OtpIds(old(otps.rows)) ==> UniqueIds(otps.rows)
  {
    var email := NormalizedEmail(emailField);
    if !IsAsuEmail(email) {
      return Reply(400, false, "ASU email required"), false;
    }
    var code := GenerateOtp(random);
    if insertFails {
      return Reply(500, false, "Unable to send OTP"), false;
    }
    otps.Insert(IssuedRow(rt, salt, id, email, code, nowMs));
    var delivery := SendOtpEmail(apiKey, sender, providerOk);
    attempted := delivery != NotConfigured;
    if delivery == Delivered {
      reply := Reply(200, true, "OTP sent to your inbox");
    } else {
      reply := Reply(500, false, "Unable to send OTP");
    }
  }

  // ---------------------------------------------------------------------
  // verify-otp

  function UsersWithEmail(users: seq<UserRow>, email: string): seq<UserRow> {
    Filter(users, (u: UserRow) => u.email == Some(email))
  }

  /** `adminRecord !== null`: exactly one `admins` row has the address. */
  predicate AdminListed(admins: seq<AdminRow>, email: string) {
    MaybeSingle(Filter(admins, (a: AdminRow) => a.email == email)).Some?
  }

  /** The row `insert({ email })` creates; the other columns take their defaults. */
  function NewUser(id: string, email: string): UserRow {
    UserRow(id, Some(email), false, false, None, None, None)
  }

  /** `update({ is_admin: true }).eq('id', id)`. */
  function SetAdmin(users: seq<UserRow>, id: string): seq<UserRow> {
    seq(|users|, i requires 0 <= i < |users| => if users[i].id == id then users[i].(isAdmin := true) else users[i])
  }

  /** Promotion only ever sets `is_admin`, and only on rows with that id. */
  lemma SetAdminNeverDemotes(users: seq<UserRow>, id: string)
    ensures |SetAdmin(users, id)| == |users|
    ensures forall i :: 0 <= i < |users| ==>
      && SetAdmin(users, id)[i].isAdmin == (users[i].isAdmin || users[i].id == id)
      && SetAdmin(users, id)[i].(isAdmin := users[i].isAdmin) == users[i]
  {
  }

  /** The `users` table after the admin step for `user`. */
  function Promote(users: seq<UserRow>, user: UserRow, listed: bool): seq<UserRow> {
    if listed && !user.isAdmin then SetAdmin(users, user.id) else users
  }

  /** The claims of the minted token. */
  function MintSeed(userId: string, email: string, isAdmin: bool): Seed {
    Seed(Some(JStr(userId)), Some(JStr(email)), Some(JBool(isAdmin)))
  }

  datatype VerifyReply =
    | Verified(token: string, userId: string, email: string, isAdmin: bool)
    | Refused(status: int, message: string)

  /** The request lacks an address or a code. */
  predicate MissingInput(emailField: Option<string>, otpField: Option<string>) {
    NormalizedEmail(emailField) == "" || otpField.None? || otpField.value == ""
  }

  /** The selected row exists, has not expired and carries the digest of the submitted code. */
  predicate CodeAccepted(rows: seq<OtpRow>, rt: Runtime, salt: string, email: string, otp: string, nowMs: int) {
    var k := NewestUnused(rows, email);
    k.Some? && !(rows[k.value].expiresAt < nowMs) && HashOtp(rt, salt, email, otp) == rows[k.value].otpHash
  }

  /**
   * The verify-otp POST handler. `newUserId` is the id the datastore gives a
   * created user and `createFails` whether that insert returns nothing.
   */
  method VerifyOtp(otps: Table<OtpRow>, users: Table<UserRow>, admins: seq<AdminRow>,
                   rt: Runtime, salt: string, emailField: Option<string>, otpField: Option<string>,
                   nowMs: int, newUserId: string, createFails: bool)
    returns (reply: VerifyReply)
    modifies otps, users
    ensures MissingInput(emailField, otpField) ==> reply == Refused(400, "Email and OTP required")
    ensures var email := NormalizedEmail(emailField);
      var k := NewestUnused(old(otps.rows), email);
      && (!MissingInput(emailField, otpField) && k.None? ==> reply == Refused(400, "Invalid or expired OTP"))
      && (!MissingInput(emailField, otpField) && k.Some? && old(otps.rows)[k.value].expiresAt < nowMs ==>
            reply == Refused(400, "OTP expired"))
      && (!MissingInput(emailField, otpField) && k.Some? && !(old(otps.rows)[k.value].expiresAt < nowMs)
            && HashOtp(rt, salt, email, otpField.value) != old(otps.rows)[k.value].otpHash ==>
            reply == Refused(400, "Invalid OTP"))
    ensures reply.Refused? && reply.status == 400 ==> otps.rows == old(otps.rows) && users.rows == old(users.rows)
    ensures var email := NormalizedEmail(emailField);
      var k := NewestUnused(old(otps.rows), email);
      var found := MaybeSingle(UsersWithEmail(old(users.rows), email));
      var listed := AdminListed(admins, email);
      !MissingInput(emailField, otpField) && CodeAccepted(old(otps.rows), rt, salt, email, otpField.value, nowMs) ==>
        && otps.rows == MarkUsed(old(otps.rows), old(otps.rows)[k.value].id)
        && (found.Some? ==>
              && reply == Verified(
                   CreateSessionToken(rt, salt, MintSeed(found.value.id, email, listed || found.value.isAdmin), MintLifetime, nowMs),
                   found.value.id, email, listed || found.value.isAdmin)
              && users.rows == Promote(old(users.rows), found.value, listed))
        && (found.None? && createFails ==>
              reply == Refused(500, "OTP verification failed") && users.rows == old(users.rows))
        && (found.None? && !createFails ==>
              && reply == Verified(
                   CreateSessionToken(rt, salt, MintSeed(newUserId, email, listed), MintLifetime, nowMs),
                   newUserId, email, listed)
              && users.rows == Promote(old(users.rows) + [NewUser(newUserId, email)], NewUser(newUserId, email), listed))
    ensures |users.rows| >= |old(users.rows)|
    ensures forall i :: 0 <= i < |old(users.rows)| && old(users.rows)[i].isAdmin ==> users.rows[i].isAdmin
  {
    var email := NormalizedEmail(emailField);
    if email == "" || otpField.None? || otpField.value == "" {
      return Refused(400, "Email and OTP required");
    }
    var otp := otpField.value;
    var k := NewestUnused(otps.rows, email);
    if k.None? {
      return Refused(400, "Invalid or expired OTP");
    }
    var row := otps.rows[k.value];
    if row.expiresAt < nowMs {
      return Refused(400, "OTP expired");
    }
    if HashOtp(rt, salt, email, otp) != row.otpHash {
      return Refused(400, "Invalid OTP");
    }
    otps.rows := MarkUsed(otps.rows, row.id);
    reply := SignIn(users, admins, rt, salt, email, nowMs, newUserId, createFails);
  }

  /**
   * The handler once the code is accepted: the user with that address, or
   * a new one, promoted when the address is listed, and the token minted
   * for it.
   */
  method SignIn(users: Table<UserRow>, admins: seq<AdminRow>, rt: Runtime, salt: string, email: string,
                nowMs: int, newUserId: string, createFails: bool)
    returns (reply: VerifyReply)
    modifies users
    ensures var found := MaybeSingle(UsersWithEmail(old(users.rows), email));
      var listed := AdminListed(admins, email);
      && (found.Some? ==>
            && reply == Verified(
                 CreateSessionToken(rt, salt, MintSeed(found.value.id, email, listed || found.value.isAdmin), MintLifetime, nowMs),
                 found.value.id, email, listed || found.value.isAdmin)
            && users.rows == Promote(old(users.rows), found.value, listed))
      && (found.None? && createFails ==>
            reply == Refused(500, "OTP verification failed") && users.rows == old(users.rows))
      && (found.None? && !createFails ==>
            && reply == Verified(
                 CreateSessionToken(rt, salt, MintSeed(newUserId, email, listed), MintLifetime, nowMs),
                 newUserId, email, listed)
            && users.rows == Promote(old(users.rows) + [NewUser(newUserId, email)], NewUser(newUserId, email), listed))
    ensures |users.rows| >= |old(users.rows)|
    ensures forall i :: 0 <= i < |old(users.rows)| && old(users.rows)[i].isAdmin ==> users.rows[i].isAdmin
  {
    var user := MaybeSingle(UsersWithEmail(users.rows, email));
    if user.None? {
      if createFails {
        return Refused(500, "OTP verification failed");
      }
      var created := NewUser(newUserId, email);
      users.Insert(created);
      user := Some(created);
    }
    var u := user.value;
    var isAdmin := AdminListed(admins, email) || u.isAdmin;
    if isAdmin && !u.isAdmin {
      SetAdminNeverDemotes(users.rows, u.id);
      users.rows := SetAdmin(users.rows, u.id);
    }
    var token := CreateSessionToken(rt, salt, MintSeed(u.id, email, isAdmin), MintLifetime, nowMs);
    return Verified(token, u.id, email, isAdmin);
  }

  /** A code issued by request-otp is accepted by verify-otp for the same address until it expires. */
  lemma IssuedCodeAccepted(rows: seq<OtpRow>, rt: Runtime, salt: string, id: string,
                           emailField: Option<string>, random: nat, issuedMs: int, nowMs: int)
    requires nowMs <= issuedMs + OtpLifetimeMs
    ensures var email := NormalizedEmail(emailField);
      var code := GenerateOtp(random);
      CodeAccepted(rows + [IssuedRow(rt, salt, id, email, code, issuedMs)], rt, salt, email, code, nowMs)
  {
    var email := NormalizedEmail(emailField);
    IssuedRowSelected(rows, rt, salt, id, email, GenerateOtp(random), issuedMs, nowMs);
  }
}

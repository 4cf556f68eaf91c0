# TeeDS Voting, modelled in Dafny

TeeDS Voting is the web app for a student design contest. Students sign in
with a one-time code mailed to their ASU address. They upload at most two
designs, all in one modality ("online" or "in-person"). Visitors vote, and
organisers moderate and read analytics. The server is a set of edge functions
over a small relational store. The browser client is a React app.

This project models the rule sets under that plumbing:

- **Session tokens.** A compact `header.payload.signature` token. It follows
  section 7.1 of RFC 7515 (JWS compact serialization), with each segment in
  the unpadded base64url alphabet of section 5 of RFC 4648 and `alg` pinned to
  `HS256`.
  - It is minted by the OTP verifier, renewed by the refresh endpoint, and
    checked by two RSVP deployments: one decodes with `atob`, the other with
    Node's `Buffer`.
  - The browser reads its expiry to schedule the refresh (`token.dfy`,
    `refresh.dfy`, `rsvp.dfy`, `session.dfy`).
  - The encoders and decoders are modelled concretely over bytes:
    `base64.dfy` for `btoa`, `atob`, `Buffer`, UTF-8 and Latin-1, and
    `text.dfy`.
  - JSON (de)serialisation, HMAC-SHA-256 and SHA-256 are fields of a
    `Runtime` value (`js.dfy`). Lemmas that need `parse` to invert
    `stringify` take that as a stated hypothesis.
- **One-time codes** (`otp.dfy`): issuing a code, with a six-digit code,
  a hex digest and a row written before the mail is sent; and verifying one,
  with newest-unused selection, strict expiry, mark-used, user creation and an
  admin flag that is never cleared.
- **Moderation** (`flag.dfy`): flagging a design moves its votes to the
  best-placed unflagged rival in its modality, or deletes them.
- **Admin analytics** (`analytics.dfy`): per-modality totals, de-duplicated
  voter lists, a top-5 leaderboard, per-modality leaders, the faculty
  leaderboard, RSVP counts and the per-design breakdown.
- **Admission rules and table operations**:
  - recording a design (two-design cap, one modality, asurite) and deleting
    one (owner check, blob before row), in `designs.dfy`;
  - the contact form, in `contact.dfy`;
  - RSVPs, in `rsvp.dfy`.
- **Client helpers**:
  - the vote page: settings, quota, pagination and page clamping, in
    `vote_page.dfy`;
  - the upload page: limit, storage path, and the upload-then-record flow, in
    `upload_page.dfy`;
  - modality labels, in `modalities.dfy`;
  - the router basename, in `basename.dfy`.

Tables are sequences of records. A table that a handler writes is a
`Tables.Table<T>` object whose `rows` the handler methods update. The storage
bucket is a `Designs.Bucket` holding a set of paths. JavaScript `Map`s are
insertion-ordered maps (`Collections.OMap`). `Array.prototype.sort` is a
stable insertion sort. Clocks, random numbers, fresh ids and datastore
failures are parameters.

## Model

| member | source | states |
|---|---|---|
| SessionToken.EncodeText | functions/refresh-token/index.ts:120-126 | a base64url-encoded string uses only the URL-safe alphabet and never contains '.' or '=' |
| SessionToken.Sign | functions/refresh-token/index.ts:108-118 | the signature segment is in the URL-safe alphabet, without '.' or '=' |
| SessionToken.Expiry | functions/refresh-token/index.ts:102 | `exp - lifetime` is `now` in whole seconds, rounded down |
| SessionToken.CreateSessionToken | functions/refresh-token/index.ts:100-106 | a created token splits on '.' into exactly three parts, and every other character is base64url |
| SessionToken.CreatedSegments | functions/refresh-token/index.ts:100-106 | the three parts are the encoded header, the encoded claims with `exp`, and the HMAC of `header.body` |
| SessionToken.ClaimsProps | functions/refresh-token/index.ts:103 | the claims carry the seed's `sub`, `email` and `isAdmin`, plus the given `exp` |
| SessionToken.DecodeSegment | api/record-rsvp.ts:87-88 | the Buffer decoder never fails; only the `atob` decoder can throw |
| SessionToken.VerifyToken | functions/refresh-token/index.ts:62-92 | a valid verdict implies three parts, a pinned `alg`, a signature equal to the HMAC of the first two parts, and a body that is the parsed payload; a throw implies three parts |
| SessionToken.PartCount | functions/refresh-token/index.ts:63-64 | a token without exactly two '.' is invalid |
| SessionToken.AlgPinning | functions/refresh-token/index.ts:78 | a header whose `alg` is not exactly "HS256" is invalid, whatever the signature |
| SessionToken.SignatureMismatch | functions/refresh-token/index.ts:80-89 | a third segment other than the expected signature is never valid |
| SessionToken.AcceptSigned | functions/refresh-token/index.ts:62-92 | well-formed segments with the right signature and `alg` are accepted, yielding the parsed body |
| SessionToken.AtobRoundTripToken | functions/refresh-token/index.ts:62-106 | with ASCII claims, the `atob` verifier returns exactly the claims the token was minted with |
| SessionToken.BufferRoundTripToken | api/record-rsvp.ts:83-108 | the Buffer verifier returns the minted claims for any claim strings, ASCII or not |
| SessionToken.AtobSegmentOfAscii | functions/refresh-token/index.ts:66-67 | `atob` gives back an ASCII segment's text |
| SessionToken.AtobSegmentOfNonAscii | functions/refresh-token/index.ts:66-67 | `atob` gives back the Latin-1 reading of the UTF-8 bytes, which differs from the original text |
| SessionToken.BufferSegment | api/record-rsvp.ts:87-88 | Buffer with UTF-8 `toString` gives back any segment's text |
| SessionToken.LoneCharSegment | functions/refresh-token/index.ts:66-67 | a one-character segment makes `atob` throw, while Buffer decodes it to "" |
| SessionToken.ExpiredAt | functions/refresh-token/index.ts:45 | expiry is strict: expired exactly when `exp*1000 < now` |
| SessionToken.BufferThrowsOnlyOnNullHeader | api/record-rsvp.ts:92-99 | the Buffer verifier throws only when the header parses to `null` |
| RefreshToken.SeedOf | functions/refresh-token/index.ts:49-53 | the renewed token's seed copies `sub`, `email` and `isAdmin` from the claims |
| RefreshToken.Handle | functions/refresh-token/index.ts:33-59 | a missing token gives 401; a decoding throw gives 500; a refreshed result requires valid, truthy, unexpired claims and carries a token minted from them with the 365-day lifetime |
| RefreshToken.ExpiryBoundary | functions/refresh-token/index.ts:44-47 | 401 "Token expired" exactly when `exp*1000 < now`; refreshed exactly when `exp*1000 >= now` |
| RefreshToken.KeepsIdentity | functions/refresh-token/index.ts:49-55 | the renewed token verifies to the old `sub`, `email` and `isAdmin`, with `exp = floor(now/1000) + 31536000` |
| RefreshToken.UndecodableIsServerError | functions/refresh-token/index.ts:56-59 | an undecodable segment throws outside the JSON `try`, giving 500 rather than 401 |
| RefreshToken.MintedTokenWindow | functions/verify-otp/index.ts:122-128 | a token minted at login can be refreshed exactly until its 12-hour expiry |
| Otp.GenerateOtp | functions/request-otp/index.ts:89-92 | the code is six ASCII digits whose value is `random mod 1000000` |
| Otp.GenerateOtpCovers | functions/request-otp/index.ts:89-92 | every six-digit code is produced exactly by the random values congruent to it |
| Otp.PaddedDigits | functions/request-otp/index.ts:91 | zero-padding to six places keeps the digits and their value |
| Otp.HashOtp | functions/request-otp/index.ts:93-97 | the digest is lowercase hex, two characters per byte |
| Otp.HashOtpMatches | functions/verify-otp/index.ts:108-114 | the issuer's and the verifier's hashes agree exactly when the SHA-256 digests of `email:otp:salt` agree |
| Otp.SendOtpEmail | functions/request-otp/index.ts:98-138 | without an API key or sender nothing is sent; delivered exactly when both are set and the provider accepts |
| Otp.RequestOtp | functions/request-otp/index.ts:45-87 | a non-ASU email gives 400 and writes nothing; an insert failure gives 500; otherwise exactly one row expiring 10 minutes later is appended before the send, and a failed send gives 500 and keeps the row |
| Otp.NewestUnused | functions/verify-otp/index.ts:34-45 | the selected row is an unused row for the email, and no later row is one; none exactly when there is no such row |
| Otp.MarkUsedExactlyOne | functions/verify-otp/index.ts:57 | with unique ids, only the chosen row changes, and only to become used |
| Otp.MarkedNotReselected | functions/verify-otp/index.ts:38 | after marking, the row is never selected again |
| Otp.IssuedRowSelected | functions/verify-otp/index.ts:34-55 | a freshly issued row is the one selected, expires strictly after 600000 ms, and matches the code's hash |
| Otp.SetAdminNeverDemotes | functions/verify-otp/index.ts:78-87 | setting the admin flag only ever turns `is_admin` on, and leaves every other field and row unchanged |
| Otp.VerifyOtp | functions/verify-otp/index.ts:27-105 | missing input, no row, expiry (strict) or a hash mismatch give 400 and change nothing; success marks that row, finds or creates the user, mints a 12-hour token with `isAdmin = listed or user.is_admin`; a failed create gives 500; users are never removed or demoted |
| Otp.SignIn | functions/verify-otp/index.ts:59-101 | after an accepted code: the user with that address keeps its id and gets `isAdmin = listed or is_admin`, set on its row only when it was off; with no user one is created, or a failed create gives 500 and leaves the table unchanged; no row is removed or demoted |
| Otp.IssuedCodeAccepted | functions/verify-otp/index.ts:34-57 | a code issued for an email is accepted until its expiry |
| Rsvp.Admit | functions/record-rsvp/index.ts:48-55 | a throw gives 500, an invalid token 401 "Invalid token", expired claims 401 "Token expired" (strict); admitted exactly otherwise, with the token's claims |
| Rsvp.Authenticate | functions/record-rsvp/index.ts:44-46 | a missing or empty token gives 401 "Missing token" |
| Rsvp.DeploymentsAgreeOnMinted | api/record-rsvp.ts:41-52 | on a minted token both deployments reach the same verdict, admitted exactly until its expiry |
| Rsvp.DeploymentsDisagreeOnBadBase64 | api/record-rsvp.ts:83-97 | on a one-character segment the `atob` deployment answers 500 while the Buffer one answers 401 |
| Rsvp.UpsertKeepsUnique | functions/record-rsvp/index.ts:61-64 | upserting keeps one row per user, adding a row only for a new user |
| Rsvp.UpsertStored | functions/record-rsvp/index.ts:61-64 | after an upsert the user's only row is the new one |
| Rsvp.UpsertOthersUnchanged | functions/record-rsvp/index.ts:61-64 | other users' rows are unchanged |
| Rsvp.UpsertIdempotent | functions/record-rsvp/index.ts:61-64 | repeating the same upsert changes nothing |
| Rsvp.RecordRsvp | functions/record-rsvp/index.ts:42-84 | token gate outcomes; `set` without exactly "yes"/"no" gives 400 with no write; `set` upserts on `sub`; any other action reads the row or null; one row per user is preserved |
| Rsvp.SetThenGet | api/record-rsvp.ts:54-76 | a read after a `set` returns the row just stored |
| Session.Repad | src/session.tsx:116-118 | `=` padding to a multiple of 4, keeping the text as a prefix |
| Session.RepadRoundTrip | src/session.tsx:116-118 | repadding and decoding a base64url segment gives back its bytes |
| Session.TokenExpiry | src/session.tsx:112-124 | a result needs three parts, a decodable payload and a truthy `exp`, and is `exp*1000` |
| Session.ExpiryOfPayload | src/session.tsx:112-124 | any three-part token whose payload decodes and parses to an object with a numeric `exp` yields `exp*1000`, or nothing when `exp` is 0 |
| Session.MintedExpiry | src/session.tsx:112-124 | on a minted token the client reads `exp*1000`, or nothing when `exp` is 0 |
| Session.RefreshPlan | src/session.tsx:62-86 | nothing is scheduled without a token or a readable expiry; refresh now when `exp <= now`; otherwise the delay is `max(exp - now - 300000, 0)` |
| Session.RefreshBeforeExpiry | src/session.tsx:68 | a scheduled refresh fires while the token is still valid, 5 minutes before expiry unless that has passed |
| Session.RefreshNowWhenExpired | src/session.tsx:79-82 | an expired minted token is refreshed immediately |
| Session.SessionProvider.constructor | src/session.tsx:88 | the provider starts with the given session |
| Session.SessionProvider.SetSession | src/session.tsx:88 | the session becomes the given one |
| Session.SessionProvider.ClearSession | src/session.tsx:89 | the session becomes null |
| Session.SessionProvider.ApplyRefresh | src/session.tsx:70-77 | a failed refresh changes nothing; a success replaces only the token and keeps the user; a cleared session stays cleared |
| Session.SessionProvider.Plan | src/session.tsx:62-86 | from the provider's state: nothing without a session, a non-empty token and a truthy numeric expiry; refresh at once when `exp <= now`; a zero timer within five minutes of expiry; otherwise a timer of `exp - now - 300000` |
| Session.SessionProvider.RefreshCycle | src/session.tsx:62-86 | after a refresh that returns a newly minted token, a signed-in user keeps their identity with the new token and the re-run effect schedules the next refresh while that token is still accepted; a cleared session stays cleared with nothing scheduled |
| FlagDesign.SetFlagOnly | functions/flag-design/index.ts:47-52 | only `is_flagged` of the rows with that id changes, to the requested flag |
| FlagDesign.CountVotes | functions/flag-design/index.ts:63-66 | the loop builds the first-seen-ordered count of each design id |
| FlagDesign.Candidates | functions/flag-design/index.ts:68-71 | at most five candidates, five when there are at least five designs |
| FlagDesign.CandidatesRanked | functions/flag-design/index.ts:68-71 | candidates are counted designs in non-increasing count order, and any design left out has no more votes than the fifth |
| FlagDesign.LeftOutBelowFifth | functions/flag-design/index.ts:68-71 | a design with votes that is not a candidate means there are exactly five candidates, and it has no more votes than the fifth |
| FlagDesign.CandidatesStable | functions/flag-design/index.ts:68-71 | among equal counts, first-seen order is kept |
| FlagDesign.FindDesign | functions/flag-design/index.ts:74-80 | the design found has that id; none exactly when no row has it |
| FlagDesign.FindInCandidates | functions/flag-design/index.ts:74-89 | looking a candidate up among the candidate designs equals looking it up among all designs |
| FlagDesign.FirstEligibleSpec | functions/flag-design/index.ts:82-89 | the target is the first candidate whose design is unflagged; none when all are flagged |
| FlagDesign.SelectTarget | functions/flag-design/index.ts:82-89 | the `for`/`break` loop returns the first eligible candidate |
| FlagDesign.TargetIsRival | functions/flag-design/index.ts:55-89 | the target is never the flagged design, has votes in the same modality, and is unflagged |
| FlagDesign.MoveCounts | functions/flag-design/index.ts:91-97 | moving votes adds the flagged design's count to the target, zeroes the flagged one and keeps all other counts |
| FlagDesign.ReplacedCounts | functions/flag-design/index.ts:91-97 | rewriting every `from` id to `to` gives `to` both counts, leaves `from` with none and keeps every other id's count |
| FlagDesign.MoveOnly | functions/flag-design/index.ts:91-97 | only `design_id` of the flagged design's votes changes |
| FlagDesign.DeleteLength | functions/flag-design/index.ts:98-100 | deleting removes exactly the flagged design's votes |
| FlagDesign.DeleteCounts | functions/flag-design/index.ts:98-100 | after deleting, the flagged design has no votes and others keep theirs |
| FlagDesign.RedistributeClears | functions/flag-design/index.ts:91-100 | in both branches no vote references the flagged design afterwards, and every other vote survives |
| FlagDesign.RedistributeConserves | functions/flag-design/index.ts:91-97 | with a target, the vote total is preserved and the target gains exactly the flagged design's votes |
| FlagDesign.Flag | functions/flag-design/index.ts:31-107 | a missing id gives 400 and no change; an unknown design, a failed lookup or a failed flag update gives 500 and no change; otherwise the flag is set (absent means true); when flagging, a failure of a later query leaves the flag written, the votes untouched and the reply 500, and without one the votes are redistributed; unflagging leaves votes alone |
| FlagDesign.Reassign | functions/flag-design/index.ts:53-100 | after the flag is written: a failing vote read, candidate lookup (only when there are candidates) or vote move (only when there is a target) gives 500 with the votes unchanged; otherwise the votes go to the target or are deleted |
| AdminAnalytics.UserById | functions/admin-analytics/index.ts:84-93 | the user found has that id; none exactly when no user has it |
| AdminAnalytics.DesignById | functions/admin-analytics/index.ts:117-140 | the design found has that id; none exactly when no row has it |
| AdminAnalytics.Submitter | functions/admin-analytics/index.ts:118 | a submitter is shown exactly when the row names a non-empty id of a known user |
| AdminAnalytics.TallyDesigns | functions/admin-analytics/index.ts:66-72 | the design loop folds each row's modality into the totals |
| AdminAnalytics.TallyVotes | functions/admin-analytics/index.ts:142-176 | the vote loop's four maps are the totals fold, the per-design counts, and the voter and faculty lists |
| AdminAnalytics.AddVoter | functions/admin-analytics/index.ts:152-175 | one vote's step pushes its voter (and faculty voter) unless already listed |
| AdminAnalytics.TallyCount | functions/admin-analytics/index.ts:66-72 | a modality's entry gains its number of occurrences; others are untouched |
| AdminAnalytics.TotalsCounts | functions/admin-analytics/index.ts:66-148 | each modality seen has designs = its design rows and votes = its vote rows (designs 0 if seen only in votes); no other entry |
| AdminAnalytics.TotalsValues | functions/admin-analytics/index.ts:213 | the totals are one correct entry per modality seen, without duplicates |
| AdminAnalytics.TotalsSorted | functions/admin-analytics/index.ts:213 | the totals list is in collation order, with one correct entry per modality |
| AdminAnalytics.VoterEntry | functions/admin-analytics/index.ts:152-153 | a vote yields a voter entry exactly when its voter is known |
| AdminAnalytics.FacultyEntry | functions/admin-analytics/index.ts:166 | a vote yields a faculty entry exactly when its voter is a known faculty member |
| AdminAnalytics.ListedSpec | functions/admin-analytics/index.ts:145-176 | each design's list has distinct ids, comes from its votes, and represents every such vote |
| AdminAnalytics.VotersOfDesign | functions/admin-analytics/index.ts:152-164 | a design's voter list holds each known voter of that design exactly once, and no one else |
| AdminAnalytics.FacultyVotersOfDesign | functions/admin-analytics/index.ts:166-175 | a design's faculty list holds each known faculty voter exactly once, and no one else |
| AdminAnalytics.EntryFor | functions/admin-analytics/index.ts:197-208 | an entry carries the design id, the count and the modality of its row |
| AdminAnalytics.LeaderMapCount | functions/admin-analytics/index.ts:193-211 | a design has an entry exactly when it has votes and is known and unflagged, and the entry counts all its votes |
| AdminAnalytics.BuildLeaderMap | functions/admin-analytics/index.ts:193-211 | the loop builds that map |
| AdminAnalytics.Leaderboard | functions/admin-analytics/index.ts:214 | at most five entries |
| AdminAnalytics.LeaderboardRanked | functions/admin-analytics/index.ts:193-214 | at most five shown designs with full counts, most votes first; no omitted shown design beats the fifth |
| AdminAnalytics.LeaderboardCovers | functions/admin-analytics/index.ts:214 | a shown design missing from the board has no more votes than the fifth entry |
| AdminAnalytics.LeaderboardEntries | functions/admin-analytics/index.ts:193-214 | every board entry is a known, unflagged design with votes, carrying all of them |
| AdminAnalytics.LeaderboardSorted | functions/admin-analytics/index.ts:214 | the board runs from the most votes down |
| AdminAnalytics.LeaderValues | functions/admin-analytics/index.ts:193-211 | every entry is a shown design with votes, counting all of them |
| AdminAnalytics.TopByModalitySpec | functions/admin-analytics/index.ts:215-224 | each modality with entries gets the first of its entries with the most votes (a tie keeps the earlier); no other modality appears |
| AdminAnalytics.TopNoneSpec | functions/admin-analytics/index.ts:215-224 | a modality is absent exactly when it has no entries |
| AdminAnalytics.FacultyUsers | functions/admin-analytics/index.ts:226 | exactly the faculty users |
| AdminAnalytics.FacultyIds | functions/admin-analytics/index.ts:227 | exactly the ids of faculty users |
| AdminAnalytics.CountFacultyVotes | functions/admin-analytics/index.ts:228-232 | the loop counts only votes by faculty users, per design |
| AdminAnalytics.FacultyCountSnoc | functions/admin-analytics/index.ts:228-232 | one more vote bumps its design's count exactly when the voter is on the faculty, and changes nothing otherwise |
| AdminAnalytics.FacultyRow | functions/admin-analytics/index.ts:235-250 | an entry exists exactly for a known unflagged design, with the faculty count |
| AdminAnalytics.FacultyLeaderboardSpec | functions/admin-analytics/index.ts:226-252 | sorted by faculty votes, holding exactly the shown designs with faculty votes and their counts |
| AdminAnalytics.RsvpCountsSpec | functions/admin-analytics/index.ts:263-271 | total is the number of rows; yes and no count exact answers, so yes + no <= total |
| AdminAnalytics.BreakdownRows | functions/admin-analytics/index.ts:273-287 | one row per design, in table order |
| AdminAnalytics.BreakdownSpec | functions/admin-analytics/index.ts:273-288 | one row per design, most votes first, each with all its votes (0 without any) and its distinct voters and faculty voters |
| AdminAnalytics.LoadAnalytics | functions/admin-analytics/index.ts:40-332 | a failed read gives 500 "Failed to load analytics"; otherwise the report of the loops and pipelines |
| Designs.ReadSubmission | functions/record-design/index.ts:37-44 | accepted exactly when all fields are present and the trimmed artwork name is non-blank; the name stored is trimmed |
| Designs.Modalities | functions/record-design/index.ts:60 | the set of the existing rows' modalities |
| Designs.ModalityLockedSpec | functions/record-design/index.ts:60-66 | the modality check passes exactly when every existing design is in the requested modality |
| Designs.LocalPart | functions/record-design/index.ts:82 | the text before the first '@' |
| Designs.Asurite | functions/record-design/index.ts:82 | the trimmed `asu_id` if non-blank, else the non-empty email local part, else null |
| Designs.NewDesign | functions/record-design/index.ts:84-94 | the inserted row: submitter, modality, trimmed artwork name, null year level, user's name and discipline, derived asurite, unflagged |
| Designs.RecordChecks | functions/record-design/index.ts:37-104 | each refusal (missing fields, failed read of the submitter's designs, two designs, other modality, no user) and its condition; refusals write nothing; success, which needs every datastore call to succeed, appends exactly the new row |
| Designs.RecordAccepts | functions/record-design/index.ts:39-100 | a complete request from a submitter with one user row and fewer than two designs, all in the requested modality, is recorded when no datastore call fails |
| Designs.RecordQuota | functions/record-design/index.ts:55-94 | after a success the submitter has at most two designs, all in one modality, and no one else's designs change |
| Designs.RecordKeepsQuota | functions/record-design/index.ts:55-94 | the at-most-two-in-one-modality invariant is preserved |
| Designs.RecordDesign | functions/record-design/index.ts:33-104 | the handler's reply and table are the specified ones |
| Designs.Bucket.constructor | functions/delete-design/index.ts:53 | the bucket holds the given paths |
| Designs.Bucket.Upload | src/pages/UploadPage.tsx:70-76 | a new path is stored; an existing path is refused |
| Designs.Bucket.Remove | functions/delete-design/index.ts:53 | the path is removed and nothing else |
| Designs.DeleteChecks | functions/delete-design/index.ts:34-67 | 400 exactly on a missing field; a failed lookup gives 500; 404 exactly when the lookup succeeds and no row matches id and submitter; the caller's path is removed before the row; a lookup or removal failure changes nothing |
| Designs.DeleteOnly | functions/delete-design/index.ts:58-61 | only the rows with that id are removed |
| Designs.DeleteKeepsQuota | functions/delete-design/index.ts:58-61 | deleting preserves the at-most-two-in-one-modality invariant |
| Designs.DeleteDesign | functions/delete-design/index.ts:31-67 | the handler's reply, table and bucket are the specified ones |
| Contact.EmailPatternSpec | functions/contact-organizers/index.ts:23 | the pattern matches exactly one '@', no whitespace, and a '.' after the '@' with text on both sides |
| Contact.Utf16Length | functions/contact-organizers/index.ts:51 | the JavaScript length is between the number of code points and twice that, and equal for BMP text |
| Contact.Normalized | functions/contact-organizers/index.ts:38-41 | name and message trimmed, email trimmed and lowercased, blank topic null |
| Contact.SubmitChecks | functions/contact-organizers/index.ts:43-60 | checks run in the order required, pattern, length (2000 accepted); a row is stored exactly on success and holds the normalised values |
| Contact.NormalizeIdempotent | functions/contact-organizers/index.ts:38-41 | normalising stored values again changes nothing |
| Contact.ResubmitStoresSame | functions/contact-organizers/index.ts:38-60 | resubmitting a stored message stores the same row |
| Contact.SubmitContact | functions/contact-organizers/index.ts:35-70 | the handler appends exactly the specified row, or nothing |
| VotePage.SettingsKeys | src/pages/VotePage.tsx:60-66 | a key is present exactly when it is "default" or some row sets it with a finite number |
| VotePage.SettingsLast | src/pages/VotePage.tsx:60-66 | the last row that sets a key decides its value |
| VotePage.SettingsDefault | src/pages/VotePage.tsx:60 | "default" is 1 unless a row overrides it |
| VotePage.ParseSettings | src/pages/VotePage.tsx:54-68 | the loop computes the settings map |
| VotePage.TallyByModality | src/pages/VotePage.tsx:85-88 | each modality maps to the number of the user's votes in it |
| VotePage.LimitFromRows | src/pages/VotePage.tsx:114-118 | the limit comes from `votes_per_m`, else `votes_m`, else `default`; an explicit 0 is kept |
| VotePage.LimitWithoutRows | src/pages/VotePage.tsx:114-118 | with no settings rows the limit is 1 |
| VotePage.Remaining | src/pages/VotePage.tsx:120-124 | `max(limit - used, 0)`, never negative, and 0 exactly when the quota is used up |
| VotePage.RemainingCountsVotes | src/pages/VotePage.tsx:85-124 | remaining votes are the limit minus the user's votes in that modality, floored at 0 |
| VotePage.HandleVote | src/pages/VotePage.tsx:160-168 | no session means a sign-in message; a vote is cast exactly when signed in with votes remaining |
| VotePage.CastOnlyUnderLimit | src/pages/VotePage.tsx:160-168 | a cast vote implies the user is below the modality's limit |
| VotePage.VotingStaysOpen | src/pages/VotePage.tsx:200-201 | once open, voting stays open |
| VotePage.Visible | src/pages/VotePage.tsx:126-129 | exactly the designs of the selected modality |
| VotePage.PagesSpec | src/pages/VotePage.tsx:131-140 | no pages when cards per view is at most 0; otherwise the pages concatenate to the designs, each holds 1..n items, all but the last are full, and there are ceil(len/n) of them |
| VotePage.PageDesigns | src/pages/VotePage.tsx:131-140 | the `for` loop builds those pages |
| VotePage.ClampOnResize | src/pages/VotePage.tsx:144-156 | the page index is clamped into range and kept when already in range |
| VotePage.ChangePage | src/pages/VotePage.tsx:207-221 | a page change lands in range, and at the requested page when that is in range |
| VotePage.ScrollToPage | src/pages/VotePage.tsx:223-240 | a scroll lands in range; with one page or zero width nothing changes |
| VotePage.PageStaysInRange | src/pages/VotePage.tsx:144-240 | every page update keeps the index in range |
| UploadPage.ListedFor | src/pages/UploadPage.tsx:31-45 | the page lists one entry per design of the submitter |
| UploadPage.InModality | src/pages/UploadPage.tsx:26-29 | exactly the listed designs in the selected modality |
| UploadPage.ClientLimitSound | src/pages/UploadPage.tsx:26-29 | when the client's limit is reached, the server would refuse as well and write nothing |
| UploadPage.OtherModalityAdmittedThenRefused | src/pages/UploadPage.tsx:26-29 | the per-modality client limit admits an upload in a second modality, which the server then refuses with 400 |
| UploadPage.ExtensionSpec | src/pages/UploadPage.tsx:67 | the extension is the text after the last '.', or the whole name without one; the "png" fallback is unreachable |
| UploadPage.StoragePathFolder | src/pages/UploadPage.tsx:68 | the path's first folder is the user id, and it ends with "." and the extension |
| UploadPage.StoragePathsDistinct | src/pages/UploadPage.tsx:68 | uploads at different times get different paths |
| UploadPage.RefusalText | src/api/supabaseClient.ts:36-39 | the error shown for a refused record call is never empty |
| UploadPage.UploadGuards | src/pages/UploadPage.tsx:55-63 | without a session or file, or at the limit, only a message is set; the file is cleared only with the success message |
| UploadPage.UploadBeforeRecord | src/pages/UploadPage.tsx:65-99 | the blob is stored before the record call; a storage error stops before it; the file is cleared exactly when recording succeeds |
| UploadPage.AsWrittenNeverRecords | src/pages/UploadPage.tsx:78-86 | without an artwork name no design row is ever written, and an uploaded blob is left without a row |
| UploadPage.NamedUploadRecords | src/pages/UploadPage.tsx:78-94 | with an artwork name and the server's conditions met, the design is recorded and the form cleared |
| UploadPage.UploadForm.constructor | src/pages/UploadPage.tsx:20 | the form starts on the first modality, with no file, message or designs |
| UploadPage.UploadForm.HandleUpload | src/pages/UploadPage.tsx:51-100 | the form, bucket and table end in the specified outcome; the modality and list are unchanged |
| Modalities.LabelMapSpec | src/constants/modalities.ts:8-11 | with distinct values, the map has one entry per modality holding its label |
| Modalities.ModalitiesTable | src/constants/modalities.ts:1-11 | exactly two modalities, "online" and "in-person", with distinct values and two map entries |
| Modalities.GetModalityLabel | src/constants/modalities.ts:13 | the two labels for the known values; any other value is returned unchanged |
| Basename.Basename | src/main.tsx:7-11 | "/" without `BASE_URL`; one trailing '/' dropped when longer than one character; never empty |
| Basename.OneSlashOnly | src/main.tsx:9 | only one trailing slash goes: "a//" gives "a/" |
| Basename.BasenameDropsAddedSlash | src/main.tsx:9-10 | adding a slash to a base and taking the basename gives the base back |
| Basename.RouterBasename | src/main.tsx:15 | "/" is passed to the router as undefined; anything else as itself |
| Base64.Btoa | functions/refresh-token/index.ts:122 | `btoa` succeeds exactly on Latin-1 text |
| Base64.BtoaOfBytes | functions/refresh-token/index.ts:121-122 | `btoa` of the byte string is the standard encoding of the bytes |
| Base64.UrlEncodeAlphabet | functions/refresh-token/index.ts:120-126 | base64url output has no '+', '/', '=' or '.' |
| Base64.UrlUnpadded | functions/refresh-token/index.ts:123-125 | the unpadded encoding uses the URL-safe alphabet and never has length 1 mod 4 |
| Base64.NodeEncodeIsBtoa | api/record-rsvp.ts:111-112 | Buffer's base64 equals `btoa`'s on the same bytes |
| Base64.BufferUrlEncodeAgrees | api/record-rsvp.ts:110-116 | the Buffer-based base64url equals the `btoa`-based one |
| Base64.AtobRoundTrip | functions/refresh-token/index.ts:66-67 | decoding a base64url segment with `atob` gives the bytes as Latin-1 text |
| Base64.NodeDecodeRoundTrip | api/record-rsvp.ts:87-88 | Buffer decoding gives back the bytes |
| Base64.SextetsRoundTrip | functions/refresh-token/index.ts:120-126 | decoding the sextets of the bytes gives back the bytes |
| Base64.AtobRejectsLoneChar | functions/refresh-token/index.ts:66-67 | `atob` rejects a one-character segment |
| Base64.NodeDecodeAcceptsLoneChar | api/record-rsvp.ts:87-88 | Buffer decodes a one-character segment to nothing |
| Text.Utf8RoundTrip | api/record-rsvp.ts:87-88 | UTF-8 decoding of an encoded string gives it back |
| Text.TruncatedSequenceReplacedOnce | api/record-rsvp.ts:87-88 | each maximal ill-formed subpart becomes one U+FFFD: `E2 82 41` decodes to U+FFFD then "A", a truncated `E2 82` or `F0 9F 98` to one U+FFFD, and an encoded surrogate `ED A0 80` to three |
| Text.AsciiLatin1Utf8 | functions/refresh-token/index.ts:121-122 | for ASCII text the Latin-1 reading of its UTF-8 bytes is the text itself |
| Text.NonAsciiLatin1Utf8 | functions/refresh-token/index.ts:121-122 | a witness that the two encodings differ off ASCII: the UTF-8 bytes of "é" read back one char per byte give "Ã©", not "é" |
| Text.TrimIdempotent | functions/contact-organizers/index.ts:38-41 | trimming twice is trimming once |
| Text.SplitLast | src/pages/UploadPage.tsx:67 | the last part of a split is the text after the last separator |
| Digits.DecimalStringValue | src/pages/UploadPage.tsx:68 | the decimal rendering of a timestamp has its value |
| Digits.DigitsValueInjective | src/pages/UploadPage.tsx:68 | different numbers render differently |
| Digits.HexRoundTrip | functions/request-otp/index.ts:93-97 | lowercase hex decodes back to the digest bytes |
| Digits.HexEncodeInjective | functions/request-otp/index.ts:93-97 | different digests give different hex strings |
| Collections.SortDescSorted | functions/flag-design/index.ts:70 | the stable descending sort is sorted and a permutation |
| Collections.SortDescStable | functions/flag-design/index.ts:70 | among equal keys the sort keeps input order |
| Collections.CountMapCounts | functions/flag-design/index.ts:63-66 | the counting map holds each key's number of occurrences |
| Tables.Table.Insert | functions/record-design/index.ts:84-94 | an insert appends exactly the row |

## Left out

- JSON parsing and serialisation, HMAC-SHA-256 and SHA-256 are fields of a `Runtime` value. Lemmas that need `parse` to invert `stringify` (or `stringify` to keep ASCII) state it as a hypothesis. No unforgeability or collision resistance is claimed.
- `Number()` string parsing is a runtime parameter. JSON numbers are integers; fractional and non-finite values other than NaN are not modelled.
- `localeCompare` is a rank function parameter; the collation itself is not modelled.
- Request parsing (`req.json()`), HTTP methods, OPTIONS/405 replies, CORS headers, `Deno.serve` and `jsonResponse` are left out. Request fields are absent or strings; non-string JSON values in requests are not modelled.
- Rsvp.SubjectId: a token whose `sub` claim is absent or not a string is assumed to make the datastore reject the `user_id` filter or upsert, so RecordRsvp answers 500; the datastore's actual coercion of a non-string `user_id` is not modelled.
- Text.Utf8Decode: Dafny strings hold Unicode scalar values only, so the lone UTF-16 surrogates a JavaScript string can carry have no counterpart; decoded text never contains them, and an encoder input containing them cannot be stated.
- Datastore calls are table updates. Errors are parameters: `FlagFault` in flag-design (design lookup, flag update, vote read, candidate lookup, vote move), `RecordFault` in record-design (designs read, user lookup, insert), `DeleteFault` in delete-design (lookup, blob removal, row deletion), and booleans for the OTP insert, the user create, the contact insert, the RSVP queries and the storage upload. A query matching several rows under `maybeSingle` is treated as an error.
- Otp.VerifyOtp: an error on the OTP read is answered like a missing row (400) and is not a separate parameter. The handler ignores the errors of the `used` update, the user lookup, the admin lookup and the promotion (functions/verify-otp/index.ts:56-86); their effects (a create attempt after a failed lookup, `isAdmin` from `is_admin` alone after a failed admin lookup, a row left unused or unpromoted) are not modelled.
- FlagDesign.Flag: the vote delete's own error is ignored by the handler (functions/flag-design/index.ts:99); a delete that fails is not modelled, and the model always deletes.
- AdminAnalytics.LoadAnalytics: one boolean stands for any of its reads failing; which read failed is not distinguished, since every one gives the same 500.
- Clocks (`Date.now`), random numbers, fresh row ids and the storage error text are parameters.
- Concurrency: the select-then-update race on OTP rows and the count-then-insert race in record-design. The model is sequential and does not claim atomicity.
- The SendGrid request is a boolean outcome.
- AdminAnalytics.LoadAnalytics: the projections copied into the response (`designs`, `users`, `contacts`, field renames, `?? null` defaults) and the contacts query with its `limit(50)` are not modelled.
- JavaScript object key order in `topByModality` is not modelled. Object-prototype keys (`__proto__`, `toString`) in the settings map and in `getModalityLabel` are not modelled.
- Js.ToNumber: arrays and objects coerce to NaN. Their `toString`-then-parse coercion (`[5]` is 5, `[]` is 0) is not modelled.
- Text.ToLower: lowercases ASCII letters only. `toLowerCase` on other scripts is not modelled.
- Base64.Atob: follows the forgiving-base64 decode of the HTML standard over ASCII input. Node's decoder is modelled as stopping at the first '=' and skipping characters outside both alphabets.
- Default values of new rows (`is_admin` false, `is_flagged` false) are assumed from the schema, which is not part of this model.
- VotePage.ScrollToPage: the rounded carousel position (`Math.round(scrollLeft / width)`) is a parameter.
- VotePage.HandleVote: models only the two guards. The vote buttons are disabled while voting is locked (src/pages/VotePage.tsx:333), but the handler itself does not check it; the `cast_vote` call, its status message and the vote refresh are not modelled.
- The `setInterval`/`setTimeout` mechanics, `localStorage` persistence, Date string parsing and rendering are left out.
- UploadPage.ListedFor: the page lists the submitter's designs in `submitted_at` order, which is not modelled; the client limit lemmas take the list up to permutation. The list refresh after an upload is not modelled.
- UI-only pages and components, routing, the AdminPage fetch and chart, the AuthPage form and vite configuration are left out.

## Findings

| source | as written | input that shows it | evidently intended | confidence | as-written member | corrected member |
|---|---|---|---|---|---|---|
| src/pages/UploadPage.tsx:78-86 | the record-design body has no `artworkName`, which functions/record-design/index.ts:37-44 requires, so every record call gets 400 after the blob has been stored | a signed-in user with a file, below the limit, whose storage upload succeeds | send the artwork name, so that the design row is written and the form cleared | high (not executed) | UploadPage.AsWrittenNeverRecords | UploadPage.NamedUploadRecords |

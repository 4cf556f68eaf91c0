/**
 * The contact-organizers form: normalising the fields, the checks in their
 * order (required fields, the email pattern, the message length) and the
 * one `contact_messages` row a valid message stores.
 */
module Contact {
  import opened Wrappers
  import opened Text
  import opened Tables

  // ---------------------------------------------------------------------
  // EMAIL_PATTERN

  /** `[^\s@]+`: a non-empty run with no white space and no '@'. */
  predicate Run(s: string) {
    |s| > 0 && forall i :: 0 <= i < |s| ==> !IsJsSpace(s[i]) && s[i] != '@'
  }

  /** One way `^[^\s@]+@[^\s@]+\.[^\s@]+$` can match `s`: `s` is a + "@" + b + "." + c. */
  predicate Parts(s: string, a: string, b: string, c: string) {
    Run(a) && Run(b) && Run(c) && s == a + "@" + b + "." + c
  }

  /** The language of `EMAIL_PATTERN`. */
  ghost predicate MatchesEmailPattern(s: string) {
    exists a, b, c :: Parts(s, a, b, c)
  }

  predicate NoSpace(s: string) {
    forall i :: 0 <= i < |s| ==> !IsJsSpace(s[i])
  }

  /**
   * `EMAIL_PATTERN.test(s)`, read off the string: no white space, exactly
   * one '@' with text before it, and a '.' after it with text on both
   * sides.
   */
  predicate ValidEmail(s: string) {
    var parts := Split(s, '@');
    && NoSpace(s)
    && |parts| == 2
    && parts[0] != ""
    && exists j :: 0 < j < |parts[1]| - 1 && parts[1][j] == '.'
  }

  /** A run followed by the separator and the rest splits off as the first part. */
  lemma SplitAtFirst(s: string, d: char)
    requires |Split(s, d)| >= 2
    ensures var h := Split(s, d)[0];
      |h| < |s| && s == h + [d] + s[|h| + 1..] && Split(s, d) == [h] + Split(s[|h| + 1..], d)
  {
    var h := Split(s, d)[0];
    SplitHead(s, d);
    if |h| == |s| {
      assert h == s;
      SplitNone(s, d);
    }
    assert s == h + [d] + s[|h| + 1..];
    SplitCons(h, d, s[|h| + 1..]);
  }

  /** A string that splits into one part has no separator. */
  lemma SplitOne(s: string, d: char)
    requires |Split(s, d)| == 1
    ensures Split(s, d) == [s] && d !in s
  {
    var h := Split(s, d)[0];
    SplitHead(s, d);
    if |h| < |s| {
      assert false;
    }
    assert h == s;
  }

  /** The test read off the string accepts exactly the language of the regular expression. */
  lemma EmailPatternSpec(s: string)
    ensures ValidEmail(s) <==> MatchesEmailPattern(s)
  {
    if ValidEmail(s) {
      ValidEmailMatches(s);
    }
    if MatchesEmailPattern(s) {
      var a, b, c :| Parts(s, a, b, c);
      MatchesValidEmail(s, a, b, c);
    }
  }

  lemma ValidEmailMatches(s: string)
    requires ValidEmail(s)
    ensures MatchesEmailPattern(s)
  {
    var parts := Split(s, '@');
    SplitAtFirst(s, '@');
    var a := parts[0];
    var rest := s[|a| + 1..];
    SplitOne(rest, '@');
    assert parts[1] == rest;
    var j :| 0 < j < |rest| - 1 && rest[j] == '.';
    var b := rest[..j];
    var c := rest[j + 1..];
    Reassemble(s, a, rest, j);
    assert Run(a) by {
      assert forall i :: 0 <= i < |a| ==> a[i] == s[i];
    }
    NoSpaceSlice(s, |a| + 1, |s|);
    SliceRun(rest, 0, j);
    SliceRun(rest, j + 1, |rest|);
    assert Parts(s, a, b, c);
  }

  /** Cutting the text after the '@' at one of its '.' characters. */
  lemma Reassemble(s: string, a: string, rest: string, j: int)
    requires s == a + "@" + rest && 0 < j < |rest| - 1 && rest[j] == '.'
    ensures s == a + "@" + rest[..j] + "." + rest[j + 1..]
  {
    assert rest == rest[..j] + "." + rest[j + 1..];
  }

  lemma MatchesValidEmail(s: string, a: string, b: string, c: string)
    requires Parts(s, a, b, c)
    ensures ValidEmail(s)
  {
    var rest := b + "." + c;
    assert s == a + "@" + rest;
    assert '@' !in b && '@' !in c;
    assert '@' !in rest;
    SplitCons(a, '@', rest);
    SplitNone(rest, '@');
    assert Split(s, '@') == [a, rest];
    var parts := Split(s, '@');
    assert parts[1] == rest;
    assert 0 < |b| < |parts[1]| - 1 && parts[1][|b|] == '.';
    NoSpaceAppend(b, ".");
    NoSpaceAppend(b + ".", c);
    NoSpaceAppend(a, "@");
    NoSpaceAppend(a + "@", rest);
    assert NoSpace(s) && |parts| == 2 && parts[0] != "";
  }

  lemma NoSpaceSlice(x: string, lo: int, hi: int)
    requires NoSpace(x) && 0 <= lo <= hi <= |x|
    ensures NoSpace(x[lo..hi])
  {
    assert forall i :: 0 <= i < hi - lo ==> x[lo..hi][i] == x[lo + i];
  }

  /** A non-empty slice of a string with neither white space nor '@' is a run. */
  lemma SliceRun(x: string, lo: int, hi: int)
    requires NoSpace(x) && '@' !in x && 0 <= lo < hi <= |x|
    ensures Run(x[lo..hi])
  {
    assert forall i :: 0 <= i < hi - lo ==> x[lo..hi][i] == x[lo + i];
  }

  lemma NoSpaceAppend(x: string, y: string)
    requires NoSpace(x) && NoSpace(y)
    ensures NoSpace(x + y)
  {
    assert forall i :: |x| <= i < |x + y| ==> (x + y)[i] == y[i - |x|];
  }

  // ---------------------------------------------------------------------
  // Message length

  /** `MAX_MESSAGE_LENGTH`. */
  const MaxMessageLength := 2000

  /** `s.length`: UTF-16 code units, two for a character beyond U+FFFF. */
  function Utf16Length(s: string): (n: nat)
    ensures |s| <= n <= 2 * |s|
    ensures (forall i :: 0 <= i < |s| ==> s[i] as int <= 0xFFFF) ==> n == |s|
  {
    if |s| == 0 then 0 else Utf16Length(s[..|s| - 1]) + (if s[|s| - 1] as int > 0xFFFF then 2 else 1)
  }

  // ---------------------------------------------------------------------
  // The handler

  datatype ContactRequest = ContactRequest(
    name: Option<string>,
    email: Option<string>,
    topic: Option<string>,
    message: Option<string>)

  /** `x?.trim() ?? ''`. */
  function TrimOrEmpty(x: Option<string>): string {
    if x.Some? then Trim(x.value) else ""
  }

  /** The normalised fields, in the shape of the row they would be stored as. */
  function Normalized(req: ContactRequest): (row: ContactRow)
    ensures row.senderName == TrimOrEmpty(req.name) && row.message == TrimOrEmpty(req.message)
    ensures row.senderEmail == ToLower(TrimOrEmpty(req.email))
    ensures row.topic.Some? <==> req.topic.Some? && Trim(req.topic.value) != ""
    ensures row.topic.Some? ==> row.topic.value == Trim(req.topic.value)
  {
    var topic := if req.topic.Some? && Trim(req.topic.value) != "" then Some(Trim(req.topic.value)) else None;
    ContactRow(TrimOrEmpty(req.name), ToLower(TrimOrEmpty(req.email)), topic, TrimOrEmpty(req.message))
  }

  datatype ContactReply = Sent | Rejected(status: int, message: string)

  const Required := "Name, email, and message are required."
  const BadEmail := "Enter a valid email address."
  const TooLong := "Message is too long."
  const SubmitFailed := "Unable to submit message right now."

  /**
   * What the handler answers and the row it stores, if any; `insertFails`
   * is whether the datastore refuses the insert.
   */
  function Submit(req: ContactRequest, insertFails: bool): (ContactReply, Option<ContactRow>) {
    Checked(Normalized(req), insertFails)
  }

  /** The checks on the normalised fields; what is stored is those fields unchanged. */
  function Checked(row: ContactRow, insertFails: bool): (r: (ContactReply, Option<ContactRow>))
    ensures r.1.Some? ==> r.1.value == row
  {
    if row.senderName == "" || row.senderEmail == "" || row.message == "" then (Rejected(400, Required), None)
    else if !ValidEmail(row.senderEmail) then (Rejected(400, BadEmail), None)
    else if Utf16Length(row.message) > MaxMessageLength then (Rejected(400, TooLong), None)
    else if insertFails then (Rejected(500, SubmitFailed), None)
    else (Sent, Some(row))
  }

  /**
   * The checks in their order: a blank required field first, then an
   * address outside the pattern, then a message over 2000 code units
   * (exactly 2000 passes). A message is stored exactly when all pass, and
   * it is stored normalised.
   */
  lemma SubmitChecks(req: ContactRequest, insertFails: bool)
    ensures var (reply, stored) := Submit(req, insertFails);
      var n := Normalized(req);
      var blank := n.senderName == "" || n.senderEmail == "" || n.message == "";
      && (reply == Rejected(400, Required) <==> blank)
      && (reply == Rejected(400, BadEmail) <==> !blank && !MatchesEmailPattern(n.senderEmail))
      && (reply == Rejected(400, TooLong) <==>
            !blank && MatchesEmailPattern(n.senderEmail) && Utf16Length(n.message) > MaxMessageLength)
      && (stored.Some? <==> reply == Sent)
      && (reply == Sent <==>
            !blank && MatchesEmailPattern(n.senderEmail) && Utf16Length(n.message) <= MaxMessageLength && !insertFails)
      && (stored.Some? ==> stored.value == n)
  {
    EmailPatternSpec(Normalized(req).senderEmail);
  }

  /** Trimming keeps a string that neither starts nor ends with white space. */
  lemma TrimKeeps(s: string)
    requires |s| == 0 || (!IsJsSpace(s[0]) && !IsJsSpace(s[|s| - 1]))
    ensures Trim(s) == s
  {
  }

  /** Lower-casing a trimmed string leaves it trimmed, and lower-casing twice is lower-casing once. */
  lemma LowerTrimmed(s: string)
    requires |s| == 0 || (!IsJsSpace(s[0]) && !IsJsSpace(s[|s| - 1]))
    ensures Trim(ToLower(s)) == ToLower(s) && ToLower(ToLower(s)) == ToLower(s)
  {
    var l := ToLower(s);
    if |s| > 0 {
      assert l[0] == LowerChar(s[0]) && l[|l| - 1] == LowerChar(s[|s| - 1]);
    }
    TrimKeeps(l);
  }

  /** The request a stored row reads as when it is submitted again. */
  function Resubmission(row: ContactRow): ContactRequest {
    ContactRequest(Some(row.senderName), Some(row.senderEmail), row.topic, Some(row.message))
  }

  /** Normalising is idempotent: the normalised fields, sent again, normalise to themselves. */
  lemma NormalizeIdempotent(req: ContactRequest)
    ensures Normalized(Resubmission(Normalized(req))) == Normalized(req)
  {
    var row := Normalized(req);
    var again := Resubmission(row);
    TrimOrEmptyAgain(req.name);
    TrimOrEmptyAgain(req.message);
    if req.email.Some? {
      LowerTrimmed(Trim(req.email.value));
    }
    assert ToLower(TrimOrEmpty(again.email)) == row.senderEmail;
    if req.topic.Some? && Trim(req.topic.value) != "" {
      TrimIdempotent(req.topic.value);
    }
    assert again.topic == row.topic;
    assert Normalized(again) == ContactRow(row.senderName, row.senderEmail, row.topic, row.message);
  }

  lemma TrimOrEmptyAgain(x: Option<string>)
    ensures TrimOrEmpty(Some(TrimOrEmpty(x))) == TrimOrEmpty(x)
  {
    if x.Some? {
      TrimIdempotent(x.value);
    }
  }

  /** A stored message is already normalised: submitting it again stores the very same row. */
  lemma ResubmitStoresSame(req: ContactRequest)
    requires Submit(req, false).1.Some?
    ensures Submit(Resubmission(Submit(req, false).1.value), false).1 == Submit(req, false).1
  {
    NormalizeIdempotent(req);
  }

  /** The contact-organizers POST handler, from its parsed body on. */
  method SubmitContact(messages: Table<ContactRow>, req: ContactRequest, insertFails: bool) returns (reply: ContactReply)
    modifies messages
    ensures var (r, stored) := Submit(req, insertFails);
      && reply == r
      && messages.rows == old(messages.rows) + (if stored.Some? then [stored.value] else [])
  {
    var name := TrimOrEmpty(req.name);
    var email := ToLower(TrimOrEmpty(req.email));
    var topic := if req.topic.Some? && Trim(req.topic.value) != "" then Some(Trim(req.topic.value)) else None;
    var message := TrimOrEmpty(req.message);
    if name == "" || email == "" || message == "" {
      return Rejected(400, Required);
    }
    if !ValidEmail(email) {
      return Rejected(400, BadEmail);
    }
    if Utf16Length(message) > MaxMessageLength {
      return Rejected(400, TooLong);
    }
    if insertFails {
      return Rejected(500, SubmitFailed);
    }
    messages.Insert(ContactRow(name, email, topic, message));
    return Sent;
  }
}

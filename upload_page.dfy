/**
 * The upload page: the per-modality limit it checks before uploading, the
 * storage path it builds for a file, and the submission itself, which puts
 * the blob in the `designs` bucket and then asks record-design for a row.
 */
module UploadPage {
  import opened Wrappers
  import opened Text
  import opened Digits
  import opened Collections
  import opened Js
  import opened Tables
  import opened Designs

  // ---------------------------------------------------------------------
  // The page's modalities and its designs

  datatype Choice = Choice(value: string, labelText: string)

  /** The page's own `MODALITIES`, with labels of its own; the first is selected at first. */
  const Choices: seq<Choice> := [Choice("online", "Online gallery"), Choice("in-person", "In-person showcase")]

  /** A row of the page's `designs` list: the user's design rows, four columns of each. */
  datatype PageDesign = PageDesign(id: string, filename: string, modality: string, storagePath: string)

  function Listed(row: DesignRow): PageDesign {
    PageDesign(row.id, row.filename, row.modality, row.storagePath)
  }

  /** What `fetchDesigns` reads: the rows of `submitter`, as page rows, in table order. */
  function ListedFor(rows: seq<DesignRow>, submitter: string): (page: seq<PageDesign>)
    ensures |page| == |DesignsOf(rows, submitter)|
  {
    var own := DesignsOf(rows, submitter);
    seq(|own|, i requires 0 <= i < |own| => Listed(own[i]))
  }

  function InModality(designs: seq<PageDesign>, selected: string): (r: seq<PageDesign>)
    ensures |r| <= |designs|
    ensures forall d :: d in r <==> d in designs && d.modality == selected
  {
    Filter(designs, (d: PageDesign) => d.modality == selected)
  }

  /** `limitReached`: two or more of the listed designs are in the selected modality. */
  predicate LimitReached(designs: seq<PageDesign>, selected: string) {
    |InModality(designs, selected)| >= 2
  }

  /**
   * The page's limit never lets through an upload the server would
   * accept: when the page lists the user's designs (in any order) and finds
   * the limit reached, record-design refuses whatever the request.
   */
  lemma ClientLimitSound(rows: seq<DesignRow>, users: seq<UserRow>, req: DesignRequest, id: string, fault: RecordFault,
                         page: seq<PageDesign>, selected: string)
    requires req.submitterId.Some?
    requires multiset(page) == multiset(ListedFor(rows, req.submitterId.value))
    requires LimitReached(page, selected)
    ensures Record(rows, users, req, id, fault).0.Refused?
    ensures Record(rows, users, req, id, fault).1 == rows
  {
    assert |page| == |multiset(page)|;
    RecordChecks(rows, users, req, id, fault);
  }

  /**
   * The page's limit is per modality while the server's cap is on all of a
   * user's designs and keeps them in one modality: with one design in one
   * modality and the other modality selected, the page lets the upload go
   * ahead and record-design refuses it (with 500 instead when its read of
   * the user's designs fails).
   */
  lemma OtherModalityAdmittedThenRefused(rows: seq<DesignRow>, users: seq<UserRow>, req: DesignRequest, id: string, fault: RecordFault)
    requires ReadSubmission(req).Some?
    requires |DesignsOf(rows, req.submitterId.value)| == 1
    requires DesignsOf(rows, req.submitterId.value)[0].modality != req.modality.value
    ensures !LimitReached(ListedFor(rows, req.submitterId.value), req.modality.value)
    ensures Record(rows, users, req, id, fault).0 ==
      if fault == ExistingReadFails then Refused(500, RecordFailed) else Refused(400, OneModality)
  {
    RecordChecks(rows, users, req, id, fault);
    assert !AllIn(DesignsOf(rows, req.submitterId.value), req.modality.value);
  }

  // ---------------------------------------------------------------------
  // The storage path

  /** `Array.prototype.pop`'s value: the last element, or undefined for an empty array. */
  function Pop<T>(s: seq<T>): Option<T> {
    if |s| == 0 then None else Some(s[|s| - 1])
  }

  /** `file.name.split('.').pop() ?? 'png'`. */
  function Extension(name: string): string {
    Pop(Split(name, '.')).GetOr("png")
  }

  /**
   * The extension is the text after the last '.' of the name, or the whole
   * name when it has none; splitting never yields an empty array, so the
   * "png" fallback is never taken.
   */
  lemma ExtensionSpec(name: string)
    ensures Pop(Split(name, '.')).Some?
    ensures var ext := Extension(name);
      && '.' !in ext && |ext| <= |name| && name[|name| - |ext|..] == ext
      && (|ext| < |name| ==> name[|name| - |ext| - 1] == '.')
      && ('.' !in name ==> ext == name)
  {
    SplitLast(name, '.');
  }

  /** `${userId}/${modality}-${Date.now()}.${extension}`. */
  function StoragePath(userId: string, modality: string, nowMs: nat, fileName: string): string {
    userId + "/" + modality + "-" + DecimalString(nowMs) + "." + Extension(fileName)
  }

  /**
   * The path lies in the user's folder: with no '/' in the user id, its
   * first segment is the id; and it ends in '.' and the file's extension.
   */
  lemma StoragePathFolder(userId: string, modality: string, nowMs: nat, fileName: string)
    requires '/' !in userId
    ensures var path := StoragePath(userId, modality, nowMs, fileName);
      && Split(path, '/')[0] == userId
      && |path| > |Extension(fileName)|
      && path[|path| - |Extension(fileName)|..] == Extension(fileName)
      && path[|path| - |Extension(fileName)| - 1] == '.'
  {
    var path := StoragePath(userId, modality, nowMs, fileName);
    var rest := modality + "-" + DecimalString(nowMs) + "." + Extension(fileName);
    assert path == userId + ['/'] + rest;
    SplitCons(userId, '/', rest);
  }

  /** Uploads at two different times of the same file in the same modality go to two different paths. */
  lemma StoragePathsDistinct(userId: string, modality: string, t1: nat, t2: nat, fileName: string)
    requires t1 != t2
    ensures StoragePath(userId, modality, t1, fileName) != StoragePath(userId, modality, t2, fileName)
  {
    var prefix := userId + "/" + modality + "-";
    var suffix := "." + Extension(fileName);
    var d1, d2 := DecimalString(t1), DecimalString(t2);
    assert StoragePath(userId, modality, t1, fileName) == prefix + d1 + suffix;
    assert StoragePath(userId, modality, t2, fileName) == prefix + d2 + suffix;
    if prefix + d1 + suffix == prefix + d2 + suffix {
      assert |d1| == |d2|;
      assert d1 == (prefix + d1 + suffix)[|prefix|..|prefix| + |d1|];
      assert d2 == (prefix + d2 + suffix)[|prefix|..|prefix| + |d2|];
      DecimalStringValue(t1);
      DecimalStringValue(t2);
    }
  }

  // ---------------------------------------------------------------------
  // Submitting

  const MissingContext := "Missing file or session context"
  const LimitMessage := "Limit reached for this modality (2 designs max)"
  const UploadedMessage := "Design uploaded! It may take a second to appear in the gallery."

  /** The body posted to record-design; the page as written sends no `artworkName` (`None`). */
  function RecordBody(fileName: string, selected: string, path: string, userId: string, artworkName: Option<string>): DesignRequest {
    DesignRequest(Some(fileName), Some(selected), Some(path), Some(userId), artworkName)
  }

  /** A body with every field given and a non-blank artwork name reads as that submission, the name trimmed. */
  lemma NamedBodyReads(fileName: string, selected: string, path: string, userId: string, artworkName: string)
    requires fileName != "" && selected != "" && path != "" && userId != "" && Trim(artworkName) != ""
    ensures ReadSubmission(RecordBody(fileName, selected, path, userId, Some(artworkName)))
      == Some(Submission(fileName, selected, path, userId, Trim(artworkName)))
  {
  }

  /** `String(n)` for an integer. */
  function IntText(n: int): string {
    if n >= 0 then DecimalString(n) else "-" + DecimalString(-n)
  }

  /**
   * The message shown for a refused record call: `invokeEdgeFunction`
   * throws the response text, the JSON of `{ ok: false, message }`, or a
   * fixed text naming the status when that text is empty.
   */
  function RefusalText(rt: Runtime, status: int, message: string): (text: string)
    ensures text != ""
  {
    var body := rt.stringify(JObj([("ok", JBool(false)), ("message", JStr(message))]));
    if body != "" then body else "Edge function record-design failed (" + IntText(status) + ")"
  }

  /** What a submission leaves: the message shown, whether the file was cleared, the bucket and the design table. */
  datatype Outcome = Outcome(message: string, cleared: bool, blobs: set<string>, rows: seq<DesignRow>)

  /**
   * `handleUpload` from the guards on: the session user `session`, the
   * chosen file's name, the listed designs and the selected modality; the
   * upload fails when `storageFails` or a blob has the path already.
   */
  function Upload(session: Option<string>, fileName: Option<string>, designs: seq<PageDesign>, selected: string,
                  nowMs: nat, artworkName: Option<string>, blobs: set<string>, rows: seq<DesignRow>,
                  users: seq<UserRow>, id: string, storageFails: bool, storageMessage: string, fault: RecordFault,
                  rt: Runtime): Outcome
  {
    if session.None? || fileName.None? then Outcome(MissingContext, false, blobs, rows)
    else if LimitReached(designs, selected) then Outcome(LimitMessage, false, blobs, rows)
    else
      var path := StoragePath(session.value, selected, nowMs, fileName.value);
      if storageFails || path in blobs then Outcome(storageMessage, false, blobs, rows)
      else
        var (reply, after) := Record(rows, users, RecordBody(fileName.value, selected, path, session.value, artworkName), id, fault);
        match reply
        case Done => Outcome(UploadedMessage, true, blobs + {path}, after)
        case Refused(status, message) => Outcome(RefusalText(rt, status, message), false, blobs + {path}, after)
  }

  /** Without a session or a file, and with the limit reached, nothing is uploaded or recorded. */
  lemma UploadGuards(session: Option<string>, fileName: Option<string>, designs: seq<PageDesign>, selected: string,
                     nowMs: nat, artworkName: Option<string>, blobs: set<string>, rows: seq<DesignRow>,
                     users: seq<UserRow>, id: string, storageFails: bool, storageMessage: string, fault: RecordFault,
                     rt: Runtime)
    ensures var o := Upload(session, fileName, designs, selected, nowMs, artworkName, blobs, rows, users, id, storageFails, storageMessage, fault, rt);
      && (session.None? || fileName.None? ==> o == Outcome(MissingContext, false, blobs, rows))
      && (session.Some? && fileName.Some? && LimitReached(designs, selected) ==> o == Outcome(LimitMessage, false, blobs, rows))
      && (o.cleared ==> o.message == UploadedMessage)
  {
  }

  /**
   * The blob goes up before the record call: a failed upload leaves the
   * table as it was, and after a successful one the blob stays whatever
   * record-design answers, the table being what record-design leaves.
   */
  lemma UploadBeforeRecord(session: Option<string>, fileName: Option<string>, designs: seq<PageDesign>, selected: string,
                           nowMs: nat, artworkName: Option<string>, blobs: set<string>, rows: seq<DesignRow>,
                           users: seq<UserRow>, id: string, storageFails: bool, storageMessage: string, fault: RecordFault,
                           rt: Runtime)
    requires session.Some? && fileName.Some? && !LimitReached(designs, selected)
    ensures var o := Upload(session, fileName, designs, selected, nowMs, artworkName, blobs, rows, users, id, storageFails, storageMessage, fault, rt);
      var path := StoragePath(session.value, selected, nowMs, fileName.value);
      var recorded := Record(rows, users, RecordBody(fileName.value, selected, path, session.value, artworkName), id, fault);
      && (storageFails || path in blobs ==> o == Outcome(storageMessage, false, blobs, rows))
      && (!storageFails && path !in blobs ==>
            && o.blobs == blobs + {path} && path !in blobs
            && o.rows == recorded.1
            && (o.cleared <==> recorded.0.Done?))
  {
  }

  /**
   * As written the page posts no `artworkName`, so record-design always
   * answers 400: no design row is ever added, and a blob that was uploaded
   * stays in the bucket with no row pointing at it.
   */
  lemma AsWrittenNeverRecords(session: Option<string>, fileName: Option<string>, designs: seq<PageDesign>, selected: string,
                              nowMs: nat, blobs: set<string>, rows: seq<DesignRow>,
                              users: seq<UserRow>, id: string, storageFails: bool, storageMessage: string, fault: RecordFault,
                              rt: Runtime)
    ensures var o := Upload(session, fileName, designs, selected, nowMs, None, blobs, rows, users, id, storageFails, storageMessage, fault, rt);
      && o.rows == rows && !o.cleared
      && (session.Some? && fileName.Some? && !LimitReached(designs, selected) && !storageFails
          && StoragePath(session.value, selected, nowMs, fileName.value) !in blobs ==>
            && o.message == RefusalText(rt, 400, MissingDesignFields)
            && o.blobs == blobs + {StoragePath(session.value, selected, nowMs, fileName.value)})
  {
    if session.Some? && fileName.Some? && !LimitReached(designs, selected) {
      var path := StoragePath(session.value, selected, nowMs, fileName.value);
      RecordChecks(rows, users, RecordBody(fileName.value, selected, path, session.value, None), id, fault);
    }
  }

  /**
   * With an artwork name in the body, a submission the server's rules allow
   * is recorded: the table gains exactly the new design, the blob is kept
   * and the file is cleared.
   */
  lemma NamedUploadRecords(session: Option<string>, fileName: Option<string>, designs: seq<PageDesign>, selected: string,
                           nowMs: nat, artworkName: string, blobs: set<string>, rows: seq<DesignRow>,
                           users: seq<UserRow>, id: string, storageMessage: string, rt: Runtime)
    requires session.Some? && session.value != "" && fileName.Some? && fileName.value != "" && selected != ""
    requires Trim(artworkName) != ""
    requires !LimitReached(designs, selected)
    requires StoragePath(session.value, selected, nowMs, fileName.value) !in blobs
    requires |DesignsOf(rows, session.value)| < 2 && AllIn(DesignsOf(rows, session.value), selected)
    requires |UsersWithId(users, session.value)| == 1
    ensures var o := Upload(session, fileName, designs, selected, nowMs, Some(artworkName), blobs, rows, users, id, false, storageMessage, NoRecordFault, rt);
      var path := StoragePath(session.value, selected, nowMs, fileName.value);
      && o.cleared && o.message == UploadedMessage
      && o.blobs == blobs + {path}
      && o.rows == rows + [NewDesign(id, Submission(fileName.value, selected, path, session.value, Trim(artworkName)), UsersWithId(users, session.value)[0])]
  {
    var path := StoragePath(session.value, selected, nowMs, fileName.value);
    var req := RecordBody(fileName.value, selected, path, session.value, Some(artworkName));
    var s := Submission(fileName.value, selected, path, session.value, Trim(artworkName));
    assert path != "";
    NamedBodyReads(fileName.value, selected, path, session.value, artworkName);
    RecordAccepts(rows, users, req, id, s);
    UploadBeforeRecord(session, fileName, designs, selected, nowMs, Some(artworkName), blobs, rows, users, id, false, storageMessage, NoRecordFault, rt);
    UploadGuards(session, fileName, designs, selected, nowMs, Some(artworkName), blobs, rows, users, id, false, storageMessage, NoRecordFault, rt);
  }

  /** The page's state: the selected modality, the chosen file, the message, the busy flag and the listed designs. */
  class UploadForm {
    var selected: string
    var file: Option<string>
    var message: Option<string>
    var uploading: bool
    var designs: seq<PageDesign>

    constructor()
      ensures selected == Choices[0].value && file.None? && message.None? && !uploading && designs == []
    {
      selected := Choices[0].value;
      file := None;
      message := None;
      uploading := false;
      designs := [];
    }

    /**
     * `handleUpload`: the guards, the blob upload, the record call, and the
     * message, file and busy flag it leaves. The refreshed list
     * `fetchDesigns` then reads is not part of this method.
     */
    method HandleUpload(session: Option<string>, nowMs: nat, artworkName: Option<string>, bucket: Bucket,
                        table: Table<DesignRow>, users: seq<UserRow>, id: string, storageFails: bool,
                        storageMessage: string, fault: RecordFault, rt: Runtime)
      modifies this, bucket, table
      ensures var o := Upload(session, old(file), old(designs), old(selected), nowMs, artworkName, old(bucket.paths),
                              old(table.rows), users, id, storageFails, storageMessage, fault, rt);
        && message == Some(o.message) && bucket.paths == o.blobs && table.rows == o.rows
        && file == (if o.cleared then None else old(file))
        && uploading == (if session.None? || old(file).None? || LimitReached(old(designs), old(selected)) then old(uploading) else false)
      ensures selected == old(selected) && designs == old(designs)
    {
      message := None;
      if session.None? || file.None? {
        message := Some(MissingContext);
        return;
      }
      if LimitReached(designs, selected) {
        message := Some(LimitMessage);
        return;
      }
      uploading := true;
      var path := StoragePath(session.value, selected, nowMs, file.value);
      var stored := false;
      if !storageFails {
        stored := bucket.Upload(path);
      }
      if !stored {
        message := Some(storageMessage);
      } else {
        var reply := RecordDesign(table, users, RecordBody(file.value, selected, path, session.value, artworkName), id, fault);
        match reply
        case Done =>
          file := None;
          message := Some(UploadedMessage);
        case Refused(status, text) =>
          message := Some(RefusalText(rt, status, text));
      }
      uploading := false;
    }
  }
}

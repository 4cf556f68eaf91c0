/**
 * A submitter's side of the `designs` table: recording an uploaded design
 * (the required fields, the two-design cap, the one-modality rule and the
 * derived `asurite` column) and deleting one's own design (its blob
 * first, then its row).
 *
 * Each handler is a method over the tables it changes, proved equal to a
 * specification function; the rules the handlers keep are lemmas about
 * those functions.
 */
module Designs {
  import opened Wrappers
  import opened Text
  import opened Collections
  import opened Tables

  /** A request field JavaScript reads as truthy: present and not the empty string. */
  predicate Given(field: Option<string>) {
    field.Some? && field.value != ""
  }

  // ---------------------------------------------------------------------
  // The quota every submitter keeps

  /** `select(...).eq('submitter_id', s)`: the designs of one submitter, in table order. */
  function DesignsOf(rows: seq<DesignRow>, submitter: string): seq<DesignRow> {
    Filter(rows, (r: DesignRow) => r.submitterId == Some(submitter))
  }

  /** All the rows are in modality `m`. */
  predicate AllIn(rows: seq<DesignRow>, m: string) {
    forall r :: r in rows ==> r.modality == m
  }

  /** No submitter has more than two designs, and each submitter's designs share one modality. */
  ghost predicate WithinQuota(rows: seq<DesignRow>) {
    forall s :: |DesignsOf(rows, s)| <= 2 && (|DesignsOf(rows, s)| > 0 ==> AllIn(DesignsOf(rows, s), DesignsOf(rows, s)[0].modality))
  }

  // ---------------------------------------------------------------------
  // record-design

  datatype DesignRequest = DesignRequest(
    filename: Option<string>,
    modality: Option<string>,
    storagePath: Option<string>,
    submitterId: Option<string>,
    artworkName: Option<string>)

  datatype Submission = Submission(filename: string, modality: string, storagePath: string, submitterId: string, artworkName: string)

  /** The request's fields once all five are given; the artwork name is trimmed first and must not be blank. */
  function ReadSubmission(req: DesignRequest): (r: Option<Submission>)
    ensures r.Some? <==>
      (Given(req.filename) && Given(req.modality) && Given(req.storagePath) && Given(req.submitterId)
       && req.artworkName.Some? && Trim(req.artworkName.value) != "")
    ensures r.Some? ==>
      && r.value.submitterId == req.submitterId.value
      && r.value.modality == req.modality.value
      && r.value.artworkName != "" && r.value.artworkName == Trim(req.artworkName.value)
      && !IsJsSpace(r.value.artworkName[0]) && !IsJsSpace(r.value.artworkName[|r.value.artworkName| - 1])
  {
    var name := if req.artworkName.Some? then Some(Trim(req.artworkName.value)) else None;
    if Given(req.filename) && Given(req.modality) && Given(req.storagePath) && Given(req.submitterId) && Given(name)
    then Some(Submission(req.filename.value, req.modality.value, req.storagePath.value, req.submitterId.value, name.value))
    else None
  }

  /** `new Set(existing.map(row => row.modality))`. */
  function Modalities(rows: seq<DesignRow>): (mods: set<string>)
    ensures forall m :: m in mods <==> exists r :: r in rows && r.modality == m
  {
    set r | r in rows :: r.modality
  }

  /** The modality test: there are designs, and they are not all in `modality`. */
  predicate ModalityLocked(existing: seq<DesignRow>, modality: string) {
    var mods := Modalities(existing);
    |mods| > 0 && (|mods| > 1 || modality !in mods)
  }

  /** The set-size test refuses a modality exactly when some existing design is in another one. */
  lemma ModalityLockedSpec(existing: seq<DesignRow>, modality: string)
    ensures !ModalityLocked(existing, modality) <==> AllIn(existing, modality)
  {
    var mods := Modalities(existing);
    if AllIn(existing, modality) {
      if |mods| > 0 {
        var x :| x in mods;
        assert mods == {modality};
      }
    } else {
      var r :| r in existing && r.modality != modality;
      assert r.modality in mods;
      if modality in mods {
        assert {r.modality, modality} <= mods;
        assert |{r.modality, modality}| == 2;
        SubsetSize({r.modality, modality}, mods);
      }
    }
  }

  lemma SubsetSize<T>(a: set<T>, b: set<T>)
    requires a <= b
    ensures |a| <= |b|
  {
    assert b == a + (b - a);
  }

  /** The part of `s` that `asu_id?.trim() || email?.split('@')[0] || null` reads from the email. */
  function LocalPart(email: string): (r: string)
    ensures |r| <= |email| && email[..|r|] == r && '@' !in r
    ensures |r| < |email| ==> email[|r|] == '@'
  {
    SplitHead(email, '@');
    Split(email, '@')[0]
  }

  /**
   * `user.asu_id?.trim() || user.email?.split('@')[0] || null`: the trimmed
   * ASU id when it is not blank, else the email's text before its first
   * '@' when that is not empty, else null.
   */
  function Asurite(user: UserRow): (r: Option<string>)
    ensures r.Some? ==> r.value != ""
    ensures user.asuId.Some? && Trim(user.asuId.value) != "" ==> r == Some(Trim(user.asuId.value))
    ensures !(user.asuId.Some? && Trim(user.asuId.value) != "") ==>
      (r.None? <==> user.email.None? || user.email.value == "" || user.email.value[0] == '@')
    ensures !(user.asuId.Some? && Trim(user.asuId.value) != "") && r.Some? ==>
      && var e := user.email.value;
      && |r.value| <= |e| && e[..|r.value|] == r.value && '@' !in r.value
      && (|r.value| < |e| ==> e[|r.value|] == '@')
  {
    if user.asuId.Some? && Trim(user.asuId.value) != "" then Some(Trim(user.asuId.value))
    else if user.email.Some? && LocalPart(user.email.value) != "" then Some(LocalPart(user.email.value))
    else None
  }

  /**
   * The row the insert creates. `id` is the key the table assigns; a new
   * design starts unflagged.
   */
  function NewDesign(id: string, s: Submission, user: UserRow): (row: DesignRow)
    ensures row.submitterId == Some(s.submitterId) && row.modality == s.modality
    ensures row.artworkName == Some(s.artworkName) && row.yearLevel == None && !row.isFlagged
    ensures row.studentName == user.fullName && row.major == user.discipline && row.asurite == Asurite(user)
  {
    DesignRow(id, s.filename, Some(s.artworkName), user.fullName, user.discipline, None, Asurite(user),
              s.modality, s.storagePath, false, Some(s.submitterId))
  }

  /** `select(...).eq('id', submitterId)`. */
  function UsersWithId(users: seq<UserRow>, id: string): seq<UserRow> {
    Filter(users, (u: UserRow) => u.id == id)
  }

  datatype DesignReply = Done | Refused(status: int, message: string)

  const MissingDesignFields := "filename, artworkName, modality, storagePath, and submitterId are required"
  const TwoDesigns := "You already have two designs uploaded. Delete one to continue."
  const OneModality := "All of your uploads must stay in the same modality unless you delete them first."
  const NoUserMetadata := "User metadata missing"
  const RecordFailed := "Unable to record design"

  /**
   * The datastore call of record-design that reports an error, if any:
   * the read of the submitter's designs, the `users` lookup or the insert.
   * Each is thrown into the handler's `catch`, which answers 500.
   */
  datatype RecordFault = NoRecordFault | ExistingReadFails | UserReadFails | InsertFails

  /**
   * What record-design answers and the `designs` rows afterwards. A
   * `users` lookup matching several rows is a query error, which the
   * handler's `catch` turns into 500, as it does every error in `fault`.
   */
  function Record(rows: seq<DesignRow>, users: seq<UserRow>, req: DesignRequest, id: string, fault: RecordFault)
    : (DesignReply, seq<DesignRow>)
  {
    match ReadSubmission(req)
    case None => (Refused(400, MissingDesignFields), rows)
    case Some(s) =>
      if fault == ExistingReadFails then (Refused(500, RecordFailed), rows)
      else
        var existing := DesignsOf(rows, s.submitterId);
        if |existing| >= 2 then (Refused(400, TwoDesigns), rows)
        else if ModalityLocked(existing, s.modality) then (Refused(400, OneModality), rows)
        else if fault == UserReadFails then (Refused(500, RecordFailed), rows)
        else
          var matches := UsersWithId(users, s.submitterId);
          if |matches| > 1 then (Refused(500, RecordFailed), rows)
          else if |matches| == 0 then (Refused(400, NoUserMetadata), rows)
          else if fault == InsertFails then (Refused(500, RecordFailed), rows)
          else (Done, rows + [NewDesign(id, s, matches[0])])
  }

  /**
   * The checks of record-design in their order: the required fields, then
   * the read of the submitter's designs, the cap (whatever the modality),
   * the modality, then the user row. A refusal leaves the table as it was;
   * success appends exactly one row, for a submitter with fewer than two
   * designs all in the requested modality and exactly one user row, when
   * no datastore call fails.
   */
  lemma RecordChecks(rows: seq<DesignRow>, users: seq<UserRow>, req: DesignRequest, id: string, fault: RecordFault)
    ensures var (reply, after) := Record(rows, users, req, id, fault);
      && (reply.Refused? ==> after == rows)
      && (reply == Refused(400, MissingDesignFields) <==> ReadSubmission(req).None?)
      && (ReadSubmission(req).Some? && fault == ExistingReadFails ==> reply == Refused(500, RecordFailed))
      && (ReadSubmission(req).Some? && fault != ExistingReadFails && |DesignsOf(rows, req.submitterId.value)| >= 2 ==>
            reply == Refused(400, TwoDesigns))
      && (ReadSubmission(req).Some? && fault != ExistingReadFails && |DesignsOf(rows, req.submitterId.value)| < 2 ==>
            (reply == Refused(400, OneModality) <==> !AllIn(DesignsOf(rows, req.submitterId.value), req.modality.value)))
      && (reply.Done? <==>
            && ReadSubmission(req).Some?
            && |DesignsOf(rows, req.submitterId.value)| < 2
            && AllIn(DesignsOf(rows, req.submitterId.value), req.modality.value)
            && |UsersWithId(users, req.submitterId.value)| == 1
            && fault == NoRecordFault)
      && (reply.Done? ==>
            after == rows + [NewDesign(id, ReadSubmission(req).value, UsersWithId(users, req.submitterId.value)[0])])
  {
    if ReadSubmission(req).Some? {
      ModalityLockedSpec(DesignsOf(rows, req.submitterId.value), req.modality.value);
    }
  }

  /**
   * A complete request from a submitter with exactly one user row, fewer
   * than two designs and all of them in the requested modality is
   * recorded when no datastore call fails.
   */
  lemma RecordAccepts(rows: seq<DesignRow>, users: seq<UserRow>, req: DesignRequest, id: string, s: Submission)
    requires ReadSubmission(req) == Some(s)
    requires |DesignsOf(rows, s.submitterId)| < 2 && AllIn(DesignsOf(rows, s.submitterId), s.modality)
    requires |UsersWithId(users, s.submitterId)| == 1
    ensures Record(rows, users, req, id, NoRecordFault) == (Done, rows + [NewDesign(id, s, UsersWithId(users, s.submitterId)[0])])
  {
    ModalityLockedSpec(DesignsOf(rows, s.submitterId), s.modality);
  }

  /** Appending a row adds it to its submitter's designs and to no one else's. */
  lemma DesignsOfAppend(rows: seq<DesignRow>, row: DesignRow, s: string)
    ensures DesignsOf(rows + [row], s) == DesignsOf(rows, s) + if row.submitterId == Some(s) then [row] else []
  {
    FilterAppend(rows, [row], (r: DesignRow) => r.submitterId == Some(s));
    assert Filter([row], (r: DesignRow) => r.submitterId == Some(s)) == if row.submitterId == Some(s) then [row] else [];
  }

  /**
   * After a recorded design its submitter has at most two designs, all in
   * the requested modality, whatever the table held before; every other
   * submitter's designs are unchanged.
   */
  lemma RecordQuota(rows: seq<DesignRow>, users: seq<UserRow>, req: DesignRequest, id: string, fault: RecordFault)
    requires Record(rows, users, req, id, fault).0.Done?
    ensures var after := Record(rows, users, req, id, fault).1;
      var s := req.submitterId.value;
      && |DesignsOf(after, s)| <= 2
      && AllIn(DesignsOf(after, s), req.modality.value)
      && forall t :: t != s ==> DesignsOf(after, t) == DesignsOf(rows, t)
  {
    RecordChecks(rows, users, req, id, fault);
    var s := req.submitterId.value;
    var row := NewDesign(id, ReadSubmission(req).value, UsersWithId(users, s)[0]);
    DesignsOfAppend(rows, row, s);
    forall t | t != s
      ensures DesignsOf(rows + [row], t) == DesignsOf(rows, t)
    {
      DesignsOfAppend(rows, row, t);
    }
  }

  /** record-design keeps every submitter within the quota. */
  lemma RecordKeepsQuota(rows: seq<DesignRow>, users: seq<UserRow>, req: DesignRequest, id: string, fault: RecordFault)
    requires WithinQuota(rows)
    ensures WithinQuota(Record(rows, users, req, id, fault).1)
  {
    var (reply, after) := Record(rows, users, req, id, fault);
    RecordChecks(rows, users, req, id, fault);
    if reply.Done? {
      RecordQuota(rows, users, req, id, fault);
      var s := req.submitterId.value;
      forall t
        ensures |DesignsOf(after, t)| <= 2
        ensures |DesignsOf(after, t)| > 0 ==> AllIn(DesignsOf(after, t), DesignsOf(after, t)[0].modality)
      {
        if t == s && |DesignsOf(after, t)| > 0 {
          assert DesignsOf(after, t)[0] in DesignsOf(after, t);
        }
      }
    }
  }

  /** The record-design POST handler, from its parsed body on. */
  method RecordDesign(designs: Table<DesignRow>, users: seq<UserRow>, req: DesignRequest, id: string, fault: RecordFault)
    returns (reply: DesignReply)
    modifies designs
    ensures (reply, designs.rows) == Record(old(designs.rows), users, req, id, fault)
  {
    var submission := ReadSubmission(req);
    if submission.None? {
      return Refused(400, MissingDesignFields);
    }
    var s := submission.value;
    if fault == ExistingReadFails {
      return Refused(500, RecordFailed);
    }
    var existing := DesignsOf(designs.rows, s.submitterId);
    if |existing| >= 2 {
      return Refused(400, TwoDesigns);
    }
    if ModalityLocked(existing, s.modality) {
      return Refused(400, OneModality);
    }
    if fault == UserReadFails {
      return Refused(500, RecordFailed);
    }
    var matches := UsersWithId(users, s.submitterId);
    if |matches| > 1 {
      return Refused(500, RecordFailed);
    }
    if |matches| == 0 {
      return Refused(400, NoUserMetadata);
    }
    if fault == InsertFails {
      return Refused(500, RecordFailed);
    }
    designs.Insert(NewDesign(id, s, matches[0]));
    return Done;
  }

  // ---------------------------------------------------------------------
  // delete-design

  /** The `designs` storage bucket: the paths of the stored blobs. */
  class Bucket {
    var paths: set<string>

    constructor(paths: set<string>)
      ensures this.paths == paths
    {
      this.paths := paths;
    }

    /** `upload(path, file, { upsert: false })`: refused when a blob already has the path. */
    method Upload(path: string) returns (stored: bool)
      modifies this
      ensures stored <==> path !in old(paths)
      ensures paths == old(paths) + {path}
    {
      stored := path !in paths;
      paths := paths + {path};
    }

    /** `remove([path])`: a path with no blob is no error. */
    method Remove(path: string)
      modifies this
      ensures paths == old(paths) - {path}
    {
      paths := paths - {path};
    }
  }

  datatype DeleteRequest = DeleteRequest(designId: Option<string>, submitterId: Option<string>, storagePath: Option<string>)

  /** `select(...).eq('id', designId).eq('submitter_id', submitterId)`. */
  function Owned(rows: seq<DesignRow>, designId: string, submitter: string): seq<DesignRow> {
    Filter(rows, (r: DesignRow) => r.id == designId && r.submitterId == Some(submitter))
  }

  /** `delete().eq('id', id)`: every row with another id stays, in order. */
  function WithoutId(rows: seq<DesignRow>, id: string): seq<DesignRow> {
    Filter(rows, (r: DesignRow) => r.id != id)
  }

  const MissingDeleteFields := "designId, submitterId, and storagePath are required"
  const DesignNotFound := "Design not found"
  const DeleteFailed := "Unable to delete design"

  /**
   * The datastore call of delete-design that reports an error, if any: the
   * lookup of the design, the blob removal or the row deletion. Each is
   * thrown into the handler's `catch`, which answers 500.
   */
  datatype DeleteFault = NoDeleteFault | LookupFails | RemoveFails | RowDeleteFails

  /**
   * What delete-design answers, and the `designs` rows and stored blobs
   * afterwards. A lookup matching several rows is a query error (500), as
   * is every error in `fault`.
   */
  function Delete(rows: seq<DesignRow>, blobs: set<string>, req: DeleteRequest, fault: DeleteFault)
    : (DesignReply, seq<DesignRow>, set<string>)
  {
    if !Given(req.designId) || !Given(req.submitterId) || !Given(req.storagePath) then
      (Refused(400, MissingDeleteFields), rows, blobs)
    else if fault == LookupFails then (Refused(500, DeleteFailed), rows, blobs)
    else
      var owned := Owned(rows, req.designId.value, req.submitterId.value);
      if |owned| > 1 then (Refused(500, DeleteFailed), rows, blobs)
      else if |owned| == 0 then (Refused(404, DesignNotFound), rows, blobs)
      else if fault == RemoveFails then (Refused(500, DeleteFailed), rows, blobs)
      else
        var left := blobs - {req.storagePath.value};
        if fault == RowDeleteFails then (Refused(500, DeleteFailed), rows, left)
        else (Done, WithoutId(rows, owned[0].id), left)
  }

  /**
   * The checks of delete-design: the three fields, then a design with that
   * id owned by that submitter (404 without one). Nothing is removed
   * before the owner check passes; the blob goes before the row, so a
   * failed blob removal keeps the row, and a row is only ever deleted after
   * its blob. The blob removed is the path in the request, whatever the
   * row's own `storage_path` says.
   */
  lemma DeleteChecks(rows: seq<DesignRow>, blobs: set<string>, req: DeleteRequest, fault: DeleteFault)
    ensures var (reply, after, left) := Delete(rows, blobs, req, fault);
      && (reply == Refused(400, MissingDeleteFields) <==> !Given(req.designId) || !Given(req.submitterId) || !Given(req.storagePath))
      && (reply == Refused(404, DesignNotFound) <==>
            Given(req.designId) && Given(req.submitterId) && Given(req.storagePath) && fault != LookupFails
            && Owned(rows, req.designId.value, req.submitterId.value) == [])
      && (reply.Done? <==>
            Given(req.designId) && Given(req.submitterId) && Given(req.storagePath)
            && |Owned(rows, req.designId.value, req.submitterId.value)| == 1 && fault == NoDeleteFault)
      && (left != blobs || after != rows ==> |Owned(rows, req.designId.value, req.submitterId.value)| == 1)
      && (left == blobs || left == blobs - {req.storagePath.value})
      && (after != rows ==> left == blobs - {req.storagePath.value})
      && (Given(req.designId) && Given(req.submitterId) && Given(req.storagePath) && fault == LookupFails ==>
            reply == Refused(500, DeleteFailed))
      && (fault == LookupFails || fault == RemoveFails ==> after == rows && left == blobs)
      && (reply.Refused? ==> after == rows)
  {
  }

  /**
   * A successful delete removes the rows with the requested id and only
   * them: every other row stays, in order, and no row with that id is left.
   */
  lemma DeleteOnly(rows: seq<DesignRow>, blobs: set<string>, req: DeleteRequest, fault: DeleteFault)
    requires Delete(rows, blobs, req, fault).0.Done?
    ensures var after := Delete(rows, blobs, req, fault).1;
      && after == WithoutId(rows, req.designId.value)
      && |after| < |rows|
      && (forall r :: r in after <==> r in rows && r.id != req.designId.value)
  {
    var owned := Owned(rows, req.designId.value, req.submitterId.value);
    assert owned[0] in owned;
    WithoutIdShorter(rows, req.designId.value, owned[0]);
  }

  lemma {:induction false} WithoutIdShorter(rows: seq<DesignRow>, id: string, row: DesignRow)
    requires row in rows && row.id == id
    ensures |WithoutId(rows, id)| < |rows|
  {
    var init := rows[..|rows| - 1];
    if rows[|rows| - 1] != row {
      assert row in init by {
        var k :| 0 <= k < |rows| && rows[k] == row;
        assert init[k] == row;
      }
      WithoutIdShorter(init, id, row);
    }
  }

  /** Deleting by id from the table deletes by id from each submitter's designs. */
  lemma {:induction false} DesignsOfWithout(rows: seq<DesignRow>, id: string, s: string)
    ensures DesignsOf(WithoutId(rows, id), s) == WithoutId(DesignsOf(rows, s), id)
  {
    if |rows| > 0 {
      var init := rows[..|rows| - 1];
      var last := rows[|rows| - 1];
      DesignsOfWithout(init, id, s);
      assert rows == init + [last];
      FilterAppend(init, [last], (r: DesignRow) => r.id != id);
      FilterAppend(init, [last], (r: DesignRow) => r.submitterId == Some(s));
      var kept := Filter([last], (r: DesignRow) => r.id != id);
      assert kept == if last.id != id then [last] else [];
      FilterAppend(WithoutId(init, id), kept, (r: DesignRow) => r.submitterId == Some(s));
      var mine := Filter([last], (r: DesignRow) => r.submitterId == Some(s));
      assert mine == if last.submitterId == Some(s) then [last] else [];
      FilterAppend(DesignsOf(init, s), mine, (r: DesignRow) => r.id != id);
    }
  }

  /** delete-design keeps every submitter within the quota. */
  lemma DeleteKeepsQuota(rows: seq<DesignRow>, blobs: set<string>, req: DeleteRequest, fault: DeleteFault)
    requires WithinQuota(rows)
    ensures WithinQuota(Delete(rows, blobs, req, fault).1)
  {
    var (reply, after, left) := Delete(rows, blobs, req, fault);
    if after != rows {
      var id := Owned(rows, req.designId.value, req.submitterId.value)[0].id;
      forall t
        ensures |DesignsOf(after, t)| <= 2
        ensures |DesignsOf(after, t)| > 0 ==> AllIn(DesignsOf(after, t), DesignsOf(after, t)[0].modality)
      {
        DesignsOfWithout(rows, id, t);
        var before := DesignsOf(rows, t);
        if |DesignsOf(after, t)| > 0 {
          assert DesignsOf(after, t)[0] in before;
          assert before[0] in before;
        }
      }
    }
  }

  /** The delete-design POST handler, from its parsed body on. */
  method DeleteDesign(designs: Table<DesignRow>, bucket: Bucket, req: DeleteRequest, fault: DeleteFault)
    returns (reply: DesignReply)
    modifies designs, bucket
    ensures (reply, designs.rows, bucket.paths) == Delete(old(designs.rows), old(bucket.paths), req, fault)
  {
    if !Given(req.designId) || !Given(req.submitterId) || !Given(req.storagePath) {
      return Refused(400, MissingDeleteFields);
    }
    if fault == LookupFails {
      return Refused(500, DeleteFailed);
    }
    var owned := Owned(designs.rows, req.designId.value, req.submitterId.value);
    if |owned| > 1 {
      return Refused(500, DeleteFailed);
    }
    if |owned| == 0 {
      return Refused(404, DesignNotFound);
    }
    if fault == RemoveFails {
      return Refused(500, DeleteFailed);
    }
    bucket.Remove(req.storagePath.value);
    if fault == RowDeleteFails {
      return Refused(500, DeleteFailed);
    }
    designs.rows := WithoutId(designs.rows, owned[0].id);
    return Done;
  }
}

/**
 * The Supabase tables the edge functions read and write, as records held in
 * in-memory tables. A table's rows are kept in insertion order, which the
 * model takes to be `created_at` order.
 *
 * A `null` in a nullable text column is `None`. `is_flagged` and `is_admin`
 * are booleans where the source reads `null` exactly as `false`
 * (`?? false`, `!== true`).
 */
module Tables {
  import opened Wrappers

  datatype OtpRow = OtpRow(id: string, email: string, otpHash: string, expiresAt: int, used: bool)

  datatype UserRow = UserRow(
    id: string,
    email: Option<string>,
    isAdmin: bool,
    isFaculty: bool,
    fullName: Option<string>,
    asuId: Option<string>,
    discipline: Option<string>)

  datatype AdminRow = AdminRow(email: string)

  datatype DesignRow = DesignRow(
    id: string,
    filename: string,
    artworkName: Option<string>,
    studentName: Option<string>,
    major: Option<string>,
    yearLevel: Option<string>,
    asurite: Option<string>,
    modality: string,
    storagePath: string,
    isFlagged: bool,
    submitterId: Option<string>)

  datatype VoteRow = VoteRow(designId: string, modality: string, voterId: string)

  /** The `design_id` column of a run of vote rows. */
  function Ids(votes: seq<VoteRow>): (ids: seq<string>)
    ensures |ids| == |votes|
    ensures forall i :: 0 <= i < |votes| ==> ids[i] == votes[i].designId
  {
    seq(|votes|, i requires 0 <= i < |votes| => votes[i].designId)
  }

  lemma IdsAppend(a: seq<VoteRow>, b: seq<VoteRow>)
    ensures Ids(a + b) == Ids(a) + Ids(b)
  {
  }

  datatype RsvpRow = RsvpRow(userId: string, willAttend: string)

  datatype ContactRow = ContactRow(senderName: string, senderEmail: string, topic: Option<string>, message: string)

  /** A table the handlers change in place. */
  class Table<T> {
    var rows: seq<T>

    constructor(rows: seq<T>)
      ensures this.rows == rows
    {
      this.rows := rows;
    }

    /** `insert(row)`: the new row goes last. */
    method Insert(row: T)
      modifies this
      ensures rows == old(rows) + [row]
    {
      rows := rows + [row];
    }
  }
}

/**
 * The flag-design handler: an administrator flags (or unflags) a design,
 * and the votes of a flagged design are handed to the most-voted unflagged
 * design of the same modality, or deleted when there is none among the
 * top five.
 */
module FlagDesign {
  import opened Wrappers
  import opened Collections
  import opened Tables

  function DesignsWithId(designs: seq<DesignRow>, id: string): seq<DesignRow> {
    Filter(designs, (d: DesignRow) => d.id == id)
  }

  /** `update({ is_flagged: f }).eq('id', id)`. */
  function SetFlag(designs: seq<DesignRow>, id: string, f: bool): seq<DesignRow> {
    seq(|designs|, i requires 0 <= i < |designs| => if designs[i].id == id then designs[i].(isFlagged := f) else designs[i])
  }

  /** The update touches only `is_flagged`, and only on rows with that id. */
  lemma SetFlagOnly(designs: seq<DesignRow>, id: string, f: bool)
    ensures |SetFlag(designs, id, f)| == |designs|
    ensures forall i :: 0 <= i < |designs| ==>
      && SetFlag(designs, id, f)[i].(isFlagged := designs[i].isFlagged) == designs[i]
      && SetFlag(designs, id, f)[i].isFlagged == if designs[i].id == id then f else designs[i].isFlagged
  {
  }

  // ---------------------------------------------------------------------
  // Counting the other designs' votes

  /** The votes `eq('modality', m).not('design_id', 'eq', id)` returns. */
  function RivalVotes(votes: seq<VoteRow>, designId: string, modality: string): seq<VoteRow> {
    Filter(votes, (v: VoteRow) => v.modality == modality && v.designId != designId)
  }

  /** The `forEach` that fills `counts`. */
  method CountVotes(rows: seq<VoteRow>) returns (counts: OMap<string, nat>)
    ensures counts == CountMap(Ids(rows))
  {
    counts := EmptyMap();
    var i := 0;
    while i < |rows|
      invariant 0 <= i <= |rows|
      invariant counts == CountMap(Ids(rows)[..i])
    {
      CountMapSnoc(Ids(rows), i);
      assert Ids(rows)[i] == rows[i].designId;
      ghost var next := Bump(counts, rows[i].designId);
      assert next == CountMap(Ids(rows)[..i + 1]);
      counts := counts.Set(rows[i].designId, counts.Get(rows[i].designId).GetOr(0) + 1);
      assert counts == next;
      i := i + 1;
    }
    assert Ids(rows)[..|rows|] == Ids(rows);
  }

  // ---------------------------------------------------------------------
  // Ranking

  function EntryCount(e: (string, nat)): int { e.1 }

  /** `Array.from(counts.entries()).sort((a, b) => b[1] - a[1])`. */
  function Ranked(counts: OMap<string, nat>): seq<(string, nat)>
    requires counts.Valid()
  {
    SortDesc(counts.Entries(), EntryCount)
  }

  /** `.slice(0, 5).map(([designId]) => designId)`. */
  function Candidates(counts: OMap<string, nat>): (c: seq<string>)
    requires counts.Valid()
    ensures |c| <= 5
    ensures |c| == if |counts.keys| < 5 then |counts.keys| else 5
  {
    var r := Ranked(counts);
    var top := if |r| <= 5 then r else r[..5];
    seq(|top|, i requires 0 <= i < |top| => top[i].0)
  }

  /** Every ranked entry is one of the map's entries. */
  lemma RankedEntries(counts: OMap<string, nat>)
    requires counts.Valid()
    ensures var r := Ranked(counts);
      forall i :: 0 <= i < |r| ==> r[i].0 in counts.vals && r[i].1 == counts.vals[r[i].0]
  {
    var e := counts.Entries();
    var r := Ranked(counts);
    forall i | 0 <= i < |r|
      ensures r[i].0 in counts.vals && r[i].1 == counts.vals[r[i].0]
    {
      assert r[i] in multiset(r);
      assert r[i] in e;
    }
  }

  /**
   * The candidates are at most five designs with votes, ordered by count
   * from the largest, and no design left out has more votes than the
   * fifth.
   */
  lemma CandidatesRanked(counts: OMap<string, nat>)
    requires counts.Valid()
    ensures var c := Candidates(counts);
      && (forall i :: 0 <= i < |c| ==> c[i] in counts.vals)
      && (forall i, j :: 0 <= i < j < |c| ==> counts.vals[c[i]] >= counts.vals[c[j]])
      && (forall x :: x in counts.vals && x !in c ==> |c| == 5 && counts.vals[x] <= counts.vals[c[4]])
  {
    var r := Ranked(counts);
    var c := Candidates(counts);
    RankedEntries(counts);
    SortDescSorted(counts.Entries(), EntryCount);
    CandidatesPrefix(counts);
    forall i, j | 0 <= i < j < |c|
      ensures counts.vals[c[i]] >= counts.vals[c[j]]
    {
      assert EntryCount(r[i]) >= EntryCount(r[j]);
    }
    forall x | x in counts.vals && x !in c
      ensures |c| == 5 && counts.vals[x] <= counts.vals[c[4]]
    {
      LeftOutBelowFifth(counts, x);
    }
  }

  /** The candidates are the ids of the first ranked entries. */
  lemma CandidatesPrefix(counts: OMap<string, nat>)
    requires counts.Valid()
    ensures var c := Candidates(counts);
      forall i :: 0 <= i < |c| ==> i < |Ranked(counts)| && c[i] == Ranked(counts)[i].0
  {
  }

  /** A design with votes that is not a candidate ranks after the fifth and has no more votes than it. */
  lemma LeftOutBelowFifth(counts: OMap<string, nat>, x: string)
    requires counts.Valid() && x in counts.vals && x !in Candidates(counts)
    ensures |Candidates(counts)| == 5 && Candidates(counts)[4] in counts.vals
    ensures counts.vals[x] <= counts.vals[Candidates(counts)[4]]
  {
    var e := counts.Entries();
    var r := Ranked(counts);
    var c := Candidates(counts);
    CandidatesPrefix(counts);
    var k :| 0 <= k < |counts.keys| && counts.keys[k] == x;
    assert e[k] == (x, counts.vals[x]);
    assert e[k] in multiset(r);
    var j :| 0 <= j < |r| && r[j] == e[k];
    assert j >= 5;
    SortDescSorted(e, EntryCount);
    RankedEntries(counts);
    assert EntryCount(r[4]) >= EntryCount(r[j]);
  }

  /** Designs with equal counts keep the order in which their first vote was seen. */
  lemma CandidatesStable(counts: OMap<string, nat>, k: int)
    requires counts.Valid()
    ensures WithKey(Ranked(counts), EntryCount, k) == WithKey(counts.Entries(), EntryCount, k)
  {
    SortDescStable(counts.Entries(), EntryCount, k);
  }

  // ---------------------------------------------------------------------
  // Choosing the target

  /** `candidateDesigns.find((row) => row.id === id)`: the first row with that id. */
  function FindDesign(rows: seq<DesignRow>, id: string): (r: Option<DesignRow>)
    ensures r.Some? ==> r.value in rows && r.value.id == id
    ensures r.None? ==> forall i :: 0 <= i < |rows| ==> rows[i].id != id
  {
    if |rows| == 0 then None
    else
      var first := FindDesign(rows[..|rows| - 1], id);
      if first.Some? then first
      else if rows[|rows| - 1].id == id then Some(rows[|rows| - 1])
      else None
  }

  /** `match && match.is_flagged !== true`. */
  predicate Eligible(rows: seq<DesignRow>, id: string) {
    var m := FindDesign(rows, id);
    m.Some? && !m.value.isFlagged
  }

  /** The rows `.in('id', candidateIds)` returns. */
  function CandidateDesigns(designs: seq<DesignRow>, c: seq<string>): seq<DesignRow> {
    Filter(designs, (d: DesignRow) => d.id in c)
  }

  /** Restricting the table to the candidates' rows does not change what `find` sees for a candidate. */
  lemma {:induction false} FindInCandidates(designs: seq<DesignRow>, c: seq<string>, id: string)
    requires id in c
    ensures FindDesign(CandidateDesigns(designs, c), id) == FindDesign(designs, id)
  {
    if |designs| > 0 {
      var init := designs[..|designs| - 1];
      var last := designs[|designs| - 1];
      FindInCandidates(init, c, id);
      var s := CandidateDesigns(designs, c);
      var s' := CandidateDesigns(init, c);
      if last.id in c {
        assert s == s' + [last];
        assert s[..|s| - 1] == s';
        assert FindDesign(s, id) == if FindDesign(s', id).Some? then FindDesign(s', id)
          else if last.id == id then Some(last) else None;
      } else {
        assert s == s';
        assert last.id != id;
      }
    }
  }

  /** The first eligible candidate, in ranking order. */
  function FirstEligible(c: seq<string>, rows: seq<DesignRow>): Option<string> {
    if |c| == 0 then None
    else if Eligible(rows, c[0]) then Some(c[0])
    else FirstEligible(c[1..], rows)
  }

  /** The chosen target is eligible and every candidate ranked above it is not; with none, no candidate is. */
  lemma {:induction false} FirstEligibleSpec(c: seq<string>, rows: seq<DesignRow>)
    ensures var top := FirstEligible(c, rows);
      && (top.Some? ==> exists k :: (0 <= k < |c| && c[k] == top.value && Eligible(rows, c[k])
            && forall j :: 0 <= j < k ==> !Eligible(rows, c[j])))
      && (top.None? ==> forall k :: 0 <= k < |c| ==> !Eligible(rows, c[k]))
  {
    if |c| > 0 && !Eligible(rows, c[0]) {
      FirstEligibleSpec(c[1..], rows);
      var rest := FirstEligible(c[1..], rows);
      if rest.Some? {
        var k :| 0 <= k < |c| - 1 && c[1..][k] == rest.value && Eligible(rows, c[1..][k])
          && forall j :: 0 <= j < k ==> !Eligible(rows, c[1..][j]);
        assert c[k + 1] == rest.value;
        forall j | 0 <= j < k + 1
          ensures !Eligible(rows, c[j])
        {
          if j > 0 {
            assert c[j] == c[1..][j - 1];
          }
        }
      } else {
        forall k | 0 <= k < |c|
          ensures !Eligible(rows, c[k])
        {
          if k > 0 {
            assert c[k] == c[1..][k - 1];
          }
        }
      }
    }
  }

  /** The `for` loop with `break` over the candidates. */
  method SelectTarget(candidates: seq<string>, rows: seq<DesignRow>) returns (top: Option<string>)
    ensures top == FirstEligible(candidates, rows)
  {
    top := None;
    var k := 0;
    while k < |candidates|
      invariant 0 <= k <= |candidates|
      invariant FirstEligible(candidates[k..], rows) == FirstEligible(candidates, rows)
    {
      var m := FindDesign(rows, candidates[k]);
      if m.Some? && !m.value.isFlagged {
        top := Some(m.value.id);
        break;
      }
      assert candidates[k..][1..] == candidates[k + 1..];
      k := k + 1;
    }
    if top.None? {
      assert candidates[k..] == [];
    }
  }

  /** The target the handler moves votes to, from the vote table and the design table after the flag update. */
  function Target(votes: seq<VoteRow>, designs: seq<DesignRow>, designId: string, modality: string): Option<string> {
    var counts := CountMap(Ids(RivalVotes(votes, designId, modality)));
    var c := Candidates(counts);
    if |c| > 0 then FirstEligible(c, CandidateDesigns(designs, c)) else None
  }

  /**
   * The target is a design of the same modality with a vote, other than
   * the flagged one; its row exists and is not flagged.
   */
  lemma TargetIsRival(votes: seq<VoteRow>, designs: seq<DesignRow>, designId: string, modality: string)
    ensures var t := Target(votes, designs, designId, modality);
      t.Some? ==>
        && t.value != designId
        && (exists v :: v in votes && v.designId == t.value && v.modality == modality)
        && Eligible(designs, t.value)
  {
    var rival := RivalVotes(votes, designId, modality);
    var counts := CountMap(Ids(rival));
    var c := Candidates(counts);
    var t := Target(votes, designs, designId, modality);
    if t.Some? {
      CandidatesRanked(counts);
      CountMapCounts(Ids(rival));
      FirstEligibleSpec(c, CandidateDesigns(designs, c));
      var k :| 0 <= k < |c| && c[k] == t.value && Eligible(CandidateDesigns(designs, c), c[k]);
      assert t.value in Ids(rival);
      var i :| 0 <= i < |rival| && Ids(rival)[i] == t.value;
      assert rival[i] in rival;
      FindInCandidates(designs, c, t.value);
    }
  }

  // ---------------------------------------------------------------------
  // Moving or deleting the flagged design's votes

  /** `update({ design_id: to }).eq('design_id', from)`. */
  function MoveVotes(votes: seq<VoteRow>, from: string, to: string): seq<VoteRow> {
    seq(|votes|, i requires 0 <= i < |votes| => if votes[i].designId == from then votes[i].(designId := to) else votes[i])
  }

  /** `delete().eq('design_id', from)`. */
  function DeleteVotes(votes: seq<VoteRow>, from: string): seq<VoteRow> {
    Filter(votes, (v: VoteRow) => v.designId != from)
  }

  /**
   * Moving conserves votes: the target gains exactly the flagged design's
   * votes, the flagged design keeps none, and every other design's count
   * is unchanged.
   */
  lemma MoveCounts(votes: seq<VoteRow>, from: string, to: string, x: string)
    requires from != to
    ensures |MoveVotes(votes, from, to)| == |votes|
    ensures Occurrences(Ids(MoveVotes(votes, from, to)), x) ==
      if x == to then Occurrences(Ids(votes), to) + Occurrences(Ids(votes), from)
      else if x == from then 0
      else Occurrences(Ids(votes), x)
  {
    assert Ids(MoveVotes(votes, from, to)) == Replaced(Ids(votes), from, to);
    ReplacedCounts(Ids(votes), from, to, x);
  }

  /** Every `from` in `s` replaced by `to`. */
  function Replaced(s: seq<string>, from: string, to: string): (r: seq<string>)
    ensures |r| == |s|
    ensures forall i :: 0 <= i < |s| ==> r[i] == if s[i] == from then to else s[i]
  {
    seq(|s|, i requires 0 <= i < |s| => if s[i] == from then to else s[i])
  }

  lemma {:induction false} ReplacedCounts(s: seq<string>, from: string, to: string, x: string)
    requires from != to
    ensures Occurrences(Replaced(s, from, to), x) ==
      if x == to then Occurrences(s, to) + Occurrences(s, from)
      else if x == from then 0
      else Occurrences(s, x)
  {
    if |s| > 0 {
      var n := |s|;
      ReplacedCounts(s[..n - 1], from, to, x);
      var r := Replaced(s, from, to);
      assert r[..n - 1] == Replaced(s[..n - 1], from, to);
    }
  }

  /** Moving changes only the `design_id` of the flagged design's votes. */
  lemma MoveOnly(votes: seq<VoteRow>, from: string, to: string)
    ensures |MoveVotes(votes, from, to)| == |votes|
    ensures forall i :: 0 <= i < |votes| ==>
      && MoveVotes(votes, from, to)[i].(designId := votes[i].designId) == votes[i]
      && (votes[i].designId != from ==> MoveVotes(votes, from, to)[i] == votes[i])
  {
  }

  /** Deleting removes exactly the flagged design's votes. */
  lemma {:induction false} DeleteLength(votes: seq<VoteRow>, from: string)
    ensures |DeleteVotes(votes, from)| == |votes| - Occurrences(Ids(votes), from)
  {
    if |votes| > 0 {
      var init := votes[..|votes| - 1];
      DeleteLength(init, from);
      assert Ids(votes)[..|votes| - 1] == Ids(init);
    }
  }

  lemma DeleteSnoc(init: seq<VoteRow>, last: VoteRow, from: string)
    ensures DeleteVotes(init + [last], from) == DeleteVotes(init, from) + (if last.designId != from then [last] else [])
  {
    assert (init + [last])[..|init|] == init;
  }

  /** Deleting leaves every other design's count as it was. */
  lemma {:induction false} DeleteCounts(votes: seq<VoteRow>, from: string, x: string)
    ensures Occurrences(Ids(DeleteVotes(votes, from)), x) == if x == from then 0 else Occurrences(Ids(votes), x)
  {
    if |votes| > 0 {
      var init := votes[..|votes| - 1];
      var last := votes[|votes| - 1];
      var kept: seq<VoteRow> := if last.designId != from then [last] else [];
      DeleteCounts(init, from, x);
      assert votes == init + [last];
      DeleteSnoc(init, last, from);
      IdsAppend(init, [last]);
      IdsAppend(DeleteVotes(init, from), kept);
      OccurrencesAppend(Ids(init), Ids([last]), x);
      OccurrencesAppend(Ids(DeleteVotes(init, from)), Ids(kept), x);
      assert Occurrences(Ids([last]), x) == if last.designId == x then 1 else 0 by {
        assert Ids([last])[..0] == [];
      }
      if |kept| == 1 {
        assert Ids(kept)[..0] == [];
      }
    }
  }

  /** What happens to the votes once a design is flagged. */
  function Redistribute(votes: seq<VoteRow>, designs: seq<DesignRow>, designId: string, modality: string): seq<VoteRow> {
    var t := Target(votes, designs, designId, modality);
    if t.Some? && t.value != "" then MoveVotes(votes, designId, t.value) else DeleteVotes(votes, designId)
  }

  /** After flagging, no vote names the flagged design, and every vote that named another design is kept. */
  lemma RedistributeClears(votes: seq<VoteRow>, designs: seq<DesignRow>, designId: string, modality: string)
    ensures var r := Redistribute(votes, designs, designId, modality);
      && (forall v :: v in r ==> v.designId != designId)
      && (forall v :: v in votes && v.designId != designId ==> v in r)
  {
    var t := Target(votes, designs, designId, modality);
    TargetIsRival(votes, designs, designId, modality);
    var r := Redistribute(votes, designs, designId, modality);
    if t.Some? && t.value != "" {
      forall v | v in votes && v.designId != designId
        ensures v in r
      {
        var i :| 0 <= i < |votes| && votes[i] == v;
        assert r[i] == v;
      }
    }
  }

  /** With a target the number of votes is conserved, and the target gains the flagged design's votes. */
  lemma RedistributeConserves(votes: seq<VoteRow>, designs: seq<DesignRow>, designId: string, modality: string)
    requires var t := Target(votes, designs, designId, modality); t.Some? && t.value != ""
    ensures var t := Target(votes, designs, designId, modality).value;
      var r := Redistribute(votes, designs, designId, modality);
      && |r| == |votes|
      && Occurrences(Ids(r), t) == Occurrences(Ids(votes), t) + Occurrences(Ids(votes), designId)
  {
    var t := Target(votes, designs, designId, modality).value;
    TargetIsRival(votes, designs, designId, modality);
    MoveCounts(votes, designId, t, t);
  }

  // ---------------------------------------------------------------------
  // The handler

  datatype FlagReply = Flagged | FlagFailed(status: int, message: string)

  /**
   * The datastore call that reports an error, if any. Each error is thrown
   * into the handler's `catch`, which answers 500; the calls after the
   * flag update run only when flagging, and the candidate lookup and the
   * vote move only when there is something to look up or move.
   */
  datatype FlagFault = NoFault | FetchFails | UpdateFails | VotesReadFails | CandidateReadFails | MoveFails

  /** Whether `fault` is a query that runs, and fails, after the flag has been written. */
  predicate FailsAfterFlag(votes: seq<VoteRow>, designs: seq<DesignRow>, designId: string, modality: string, fault: FlagFault) {
    || fault == VotesReadFails
    || (fault == CandidateReadFails && |Candidates(CountMap(Ids(RivalVotes(votes, designId, modality))))| > 0)
    || (fault == MoveFails && var t := Target(votes, designs, designId, modality); t.Some? && t.value != "")
  }

  /**
   * The POST handler. A failure before the flag update changes nothing; a
   * failure after it leaves the new flag written and the votes untouched,
   * and the reply is still 500.
   */
  method Flag(designs: Table<DesignRow>, votes: Table<VoteRow>, designId: Option<string>, flag: Option<bool>, fault: FlagFault)
    returns (reply: FlagReply)
    modifies designs, votes
    ensures designId.None? || designId.value == "" ==>
      reply == FlagFailed(400, "Missing designId") && designs.rows == old(designs.rows) && votes.rows == old(votes.rows)
    ensures designId.Some? && designId.value != "" ==>
      (fault == FetchFails || fault == UpdateFails || MaybeSingle(DesignsWithId(old(designs.rows), designId.value)).None?) ==>
      reply == FlagFailed(500, "Failed to flag design") && designs.rows == old(designs.rows) && votes.rows == old(votes.rows)
    ensures designId.Some? && designId.value != "" && fault != FetchFails && fault != UpdateFails ==>
      var design := MaybeSingle(DesignsWithId(old(designs.rows), designId.value));
      var nextFlag := flag.GetOr(true);
      design.Some? ==>
        && designs.rows == SetFlag(old(designs.rows), designId.value, nextFlag)
        && if nextFlag && FailsAfterFlag(old(votes.rows), designs.rows, designId.value, design.value.modality, fault)
           then reply == FlagFailed(500, "Failed to flag design") && votes.rows == old(votes.rows)
           else
             && reply == Flagged
             && votes.rows == if nextFlag
                  then Redistribute(old(votes.rows), designs.rows, designId.value, design.value.modality)
                  else old(votes.rows)
  {
    if designId.None? || designId.value == "" {
      return FlagFailed(400, "Missing designId");
    }
    var id := designId.value;
    if fault == FetchFails {
      return FlagFailed(500, "Failed to flag design");
    }
    var design := MaybeSingle(DesignsWithId(designs.rows, id));
    if design.None? {
      return FlagFailed(500, "Failed to flag design");
    }
    var nextFlag := flag.GetOr(true);
    if fault == UpdateFails {
      return FlagFailed(500, "Failed to flag design");
    }
    designs.rows := SetFlag(designs.rows, id, nextFlag);
    if nextFlag {
      reply := Reassign(designs.rows, votes, id, design.value.modality, fault);
    } else {
      reply := Flagged;
    }
  }

  /**
   * The part of the handler that runs once a design has been flagged: the
   * flagged design's votes go to the first eligible candidate of its
   * modality, or are deleted when there is none. A failing query leaves
   * the votes as they were and answers 500.
   */
  method Reassign(designs: seq<DesignRow>, votes: Table<VoteRow>, id: string, modality: string, fault: FlagFault)
    returns (reply: FlagReply)
    modifies votes
    ensures if FailsAfterFlag(old(votes.rows), designs, id, modality, fault)
      then reply == FlagFailed(500, "Failed to flag design") && votes.rows == old(votes.rows)
      else reply == Flagged && votes.rows == Redistribute(old(votes.rows), designs, id, modality)
  {
    if fault == VotesReadFails {
      return FlagFailed(500, "Failed to flag design");
    }
    var voteRows := RivalVotes(votes.rows, id, modality);
    var counts := CountVotes(voteRows);
    var candidateIds := Candidates(counts);
    var top: Option<string> := None;
    if |candidateIds| > 0 {
      if fault == CandidateReadFails {
        return FlagFailed(500, "Failed to flag design");
      }
      top := SelectTarget(candidateIds, CandidateDesigns(designs, candidateIds));
    }
    assert top == Target(votes.rows, designs, id, modality);
    if top.Some? && top.value != "" {
      if fault == MoveFails {
        return FlagFailed(500, "Failed to flag design");
      }
      votes.rows := MoveVotes(votes.rows, id, top.value);
    } else {
      votes.rows := DeleteVotes(votes.rows, id);
    }
    return Flagged;
  }
}

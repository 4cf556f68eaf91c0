/**
 * The admin-analytics aggregation: per-modality totals, per-design vote
 * counts, de-duplicated voter lists, the leaderboard of unflagged designs,
 * the leader of each modality, the faculty leaderboard, the RSVP tallies
 * and the per-design breakdown, all computed from one read of the tables.
 *
 * The `forEach` loops that fill `Map`s are methods proved equal to folds
 * over the rows; the lemmas say what each fold holds.
 */
module AdminAnalytics {
  import opened Wrappers
  import opened Collections
  import opened Tables

  // ---------------------------------------------------------------------
  // Lookups built from the rows

  function UserId(u: UserRow): string { u.id }
  function DesignId(d: DesignRow): string { d.id }

  /** `usersById.get(id)`. */
  function UserById(users: seq<UserRow>, id: string): (r: Option<UserRow>)
    ensures r.Some? ==> r.value in users && r.value.id == id
    ensures r.None? <==> forall i :: 0 <= i < |users| ==> users[i].id != id
  {
    LastWithKey(users, UserId, id)
  }

  /** `designLookup.get(id)`. */
  function DesignById(designs: seq<DesignRow>, id: string): (r: Option<DesignRow>)
    ensures r.Some? ==> r.value in designs && r.value.id == id
    ensures r.None? <==> forall i :: 0 <= i < |designs| ==> designs[i].id != id
  {
    LastWithKey(designs, DesignId, id)
  }

  /** A design the leaderboards show: it exists and is not flagged. */
  predicate OnBoard(designs: seq<DesignRow>, id: string) {
    var meta := DesignById(designs, id);
    meta.Some? && !meta.value.isFlagged
  }

  /** The submitter shown beside a design: none without a (non-empty) `submitter_id` or a user with that id. */
  function Submitter(users: seq<UserRow>, row: DesignRow): (r: Option<UserRow>)
    ensures r.Some? <==> row.submitterId.Some? && row.submitterId.value != "" && UserById(users, row.submitterId.value).Some?
    ensures r.Some? ==> r.value in users && r.value.id == row.submitterId.value
  {
    if row.submitterId.Some? && row.submitterId.value != "" then UserById(users, row.submitterId.value) else None
  }

  // ---------------------------------------------------------------------
  // Totals per modality

  datatype Total = Total(modality: string, designs: nat, votes: nat)

  /** The `modality` column of the design rows. */
  function DesignModalities(designs: seq<DesignRow>): (r: seq<string>)
    ensures |r| == |designs| && forall i :: 0 <= i < |designs| ==> r[i] == designs[i].modality
  {
    seq(|designs|, i requires 0 <= i < |designs| => designs[i].modality)
  }

  /** The `modality` column of the vote rows. */
  function VoteModalities(votes: seq<VoteRow>): (r: seq<string>)
    ensures |r| == |votes| && forall i :: 0 <= i < |votes| ==> r[i] == votes[i].modality
  {
    seq(|votes|, i requires 0 <= i < |votes| => votes[i].modality)
  }

  /** `e.designs += n` or `e.votes += n`. */
  function Added(e: Total, n: nat, isVote: bool): Total {
    if isVote then e.(votes := e.votes + n) else e.(designs := e.designs + n)
  }

  /** Folding the modalities into the totals map, one design or one vote each, creating absent entries with zero counts. */
  function Tally(t: OMap<string, Total>, mods: seq<string>, isVote: bool): (r: OMap<string, Total>)
    ensures t.Valid() ==> r.Valid()
  {
    if |mods| == 0 then t
    else
      var acc := Tally(t, mods[..|mods| - 1], isVote);
      var m := mods[|mods| - 1];
      acc.Set(m, Added(acc.Get(m).GetOr(Total(m, 0, 0)), 1, isVote))
  }

  /** One more step of the fold: the entry of the `i`th modality, or a zero one, with one more design or vote. */
  lemma TallySnoc(t: OMap<string, Total>, mods: seq<string>, i: int, isVote: bool,
                  acc: OMap<string, Total>, m: string, e: Total)
    requires 0 <= i < |mods| && m == mods[i]
    requires acc == Tally(t, mods[..i], isVote) && e == acc.Get(m).GetOr(Total(m, 0, 0))
    ensures Tally(t, mods[..i + 1], isVote)
      == acc.Set(m, if isVote then e.(votes := e.votes + 1) else e.(designs := e.designs + 1))
  {
    assert mods[..i + 1][..i] == mods[..i];
  }

  /** A modality's entry gains its number of occurrences; other entries are untouched. */
  lemma {:induction false} TallyCount(t: OMap<string, Total>, mods: seq<string>, isVote: bool, m: string)
    ensures Tally(t, mods, isVote).Get(m)
      == if m in mods then Some(Added(t.Get(m).GetOr(Total(m, 0, 0)), Occurrences(mods, m), isVote)) else t.Get(m)
  {
    if |mods| > 0 {
      var n := |mods|;
      var init := mods[..n - 1];
      var last := mods[n - 1];
      TallyCount(t, init, isVote, m);
      var acc := Tally(t, init, isVote);
      assert Tally(t, mods, isVote) == acc.Set(last, Added(acc.Get(last).GetOr(Total(last, 0, 0)), 1, isVote));
      assert mods == init + [last];
      assert m in mods <==> m in init || m == last;
      if last == m {
        assert Occurrences(mods, m) == Occurrences(init, m) + 1;
        assert Tally(t, mods, isVote).Get(m) == Some(Added(acc.Get(m).GetOr(Total(m, 0, 0)), 1, isVote));
      } else {
        assert Occurrences(mods, m) == Occurrences(init, m);
        assert Tally(t, mods, isVote).Get(m) == acc.Get(m);
      }
    }
  }

  /** The `totalsMap` after both loops: designs first, then votes. */
  function TotalsMap(designs: seq<DesignRow>, votes: seq<VoteRow>): (t: OMap<string, Total>)
    ensures t.Valid()
  {
    Tally(Tally(EmptyMap(), DesignModalities(designs), false), VoteModalities(votes), true)
  }

  /**
   * Every modality seen in a design or a vote has one entry holding its
   * number of designs and of votes, so a modality seen only in votes has 0
   * designs; no other modality has an entry.
   */
  lemma TotalsCounts(designs: seq<DesignRow>, votes: seq<VoteRow>, m: string)
    ensures var dm := DesignModalities(designs);
      var vm := VoteModalities(votes);
      TotalsMap(designs, votes).Get(m)
        == if m in dm || m in vm then Some(Total(m, Occurrences(dm, m), Occurrences(vm, m))) else None
  {
    var dm := DesignModalities(designs);
    var vm := VoteModalities(votes);
    var t0: OMap<string, Total> := EmptyMap();
    assert t0.Get(m) == None;
    var t1 := Tally(t0, dm, false);
    TallyCount(t0, dm, false, m);
    var d := Occurrences(dm, m);
    assert t1.Get(m) == if m in dm then Some(Total(m, d, 0)) else None;
    assert t1.Get(m).GetOr(Total(m, 0, 0)) == Total(m, d, 0);
    TallyCount(t1, vm, true, m);
    var v := Occurrences(vm, m);
    assert TotalsMap(designs, votes) == Tally(t1, vm, true);
    if m in vm {
      assert Added(Total(m, d, 0), v, true) == Total(m, d, v);
    } else {
      assert v == 0;
    }
  }

  /** The sort key of `a.modality.localeCompare(b.modality)`, given the collation as a rank. */
  function ModalityKey(rank: string -> int): Total -> int {
    (t: Total) => -rank(t.modality)
  }

  /** `Array.from(totalsMap.values()).sort(...)` by modality. */
  function SortedTotals(t: OMap<string, Total>, rank: string -> int): seq<Total>
    requires t.Valid()
  {
    SortDesc(t.Values(), ModalityKey(rank))
  }

  /** The entry the totals hold for modality `m`. */
  function TotalOf(designs: seq<DesignRow>, votes: seq<VoteRow>, m: string): Total {
    Total(m, Occurrences(DesignModalities(designs), m), Occurrences(VoteModalities(votes), m))
  }

  /** The values of the totals map are the correct entries of the modalities seen, one per modality. */
  lemma TotalsValues(designs: seq<DesignRow>, votes: seq<VoteRow>)
    ensures var vals := TotalsMap(designs, votes).Values();
      && Distinct(vals)
      && (forall x :: x in vals <==>
            (x.modality in DesignModalities(designs) || x.modality in VoteModalities(votes))
            && x == TotalOf(designs, votes, x.modality))
  {
    var t := TotalsMap(designs, votes);
    var vals := t.Values();
    forall i | 0 <= i < |vals|
      ensures vals[i] == TotalOf(designs, votes, t.keys[i])
      ensures t.keys[i] in DesignModalities(designs) || t.keys[i] in VoteModalities(votes)
    {
      TotalsCounts(designs, votes, t.keys[i]);
    }
    forall x: Total | (x.modality in DesignModalities(designs) || x.modality in VoteModalities(votes))
        && x == TotalOf(designs, votes, x.modality)
      ensures x in vals
    {
      TotalsCounts(designs, votes, x.modality);
      var k :| 0 <= k < |t.keys| && t.keys[k] == x.modality;
      assert vals[k] == x;
    }
  }

  /** The totals list is in collation order and holds exactly one correct entry per modality seen. */
  lemma TotalsSorted(designs: seq<DesignRow>, votes: seq<VoteRow>, rank: string -> int)
    ensures var r := SortedTotals(TotalsMap(designs, votes), rank);
      && (forall i, j :: 0 <= i < j < |r| ==> rank(r[i].modality) <= rank(r[j].modality))
      && (forall i, j :: 0 <= i < j < |r| ==> r[i].modality != r[j].modality)
      && (forall x :: x in r <==>
            (x.modality in DesignModalities(designs) || x.modality in VoteModalities(votes))
            && x == TotalOf(designs, votes, x.modality))
  {
    var t := TotalsMap(designs, votes);
    var vals := t.Values();
    var r := SortedTotals(t, rank);
    TotalsValues(designs, votes);
    SortDescSorted(vals, ModalityKey(rank));
    forall i, j | 0 <= i < j < |r|
      ensures rank(r[i].modality) <= rank(r[j].modality)
    {
      assert ModalityKey(rank)(r[i]) >= ModalityKey(rank)(r[j]);
    }
    PermutationMembers(vals, r);
    DistinctPermutation(vals, r);
  }

  // ---------------------------------------------------------------------
  // Voter lists

  datatype Voter = Voter(id: string, name: string, email: string, isFaculty: bool)

  datatype FacultyVoter = FacultyVoter(id: string, name: string, email: string)

  function VoterId(v: Voter): string { v.id }

  function FacultyVoterId(v: FacultyVoter): string { v.id }

  /** The entry a vote adds to its design's voter list: none for an unknown voter. */
  function VoterEntry(users: seq<UserRow>, vote: VoteRow): (r: Option<Voter>)
    ensures r.Some? <==> UserById(users, vote.voterId).Some?
    ensures r.Some? ==> r.value.id == vote.voterId
  {
    match UserById(users, vote.voterId)
    case None => None
    case Some(u) => Some(Voter(u.id, u.fullName.GetOr(u.email.GetOr("Unknown voter")), u.email.GetOr("unknown"), u.isFaculty))
  }

  /** The entry a vote adds to its design's faculty list: none unless the voter is a known faculty member. */
  function FacultyEntry(users: seq<UserRow>, vote: VoteRow): (r: Option<FacultyVoter>)
    ensures r.Some? <==> UserById(users, vote.voterId).Some? && UserById(users, vote.voterId).value.isFaculty
    ensures r.Some? ==> r.value.id == vote.voterId
  {
    match UserById(users, vote.voterId)
    case None => None
    case Some(u) => if u.isFaculty then Some(FacultyVoter(u.id, u.fullName.GetOr(u.email.GetOr("Unknown faculty")), u.email.GetOr("unknown"))) else None
  }

  /** `list.find((entry) => entry.id === id)` finds something. */
  predicate HasId<T>(l: seq<T>, id: string, idOf: T -> string) {
    exists i :: 0 <= i < |l| && idOf(l[i]) == id
  }

  /** The list per design that a vote loop builds: an entry is pushed unless one with the same id is there. */
  function Listed<T>(users: seq<UserRow>, votes: seq<VoteRow>, entryOf: (seq<UserRow>, VoteRow) -> Option<T>, idOf: T -> string)
    : (m: OMap<string, seq<T>>)
    ensures m.Valid()
  {
    if |votes| == 0 then EmptyMap()
    else
      var vote := votes[|votes| - 1];
      Push(Listed(users, votes[..|votes| - 1], entryOf, idOf), vote.designId, entryOf(users, vote), idOf)
  }

  /** One vote's step: its entry, if any, is pushed onto the design's list unless one with the same id is there. */
  function Push<T>(acc: OMap<string, seq<T>>, d: string, entry: Option<T>, idOf: T -> string): (m: OMap<string, seq<T>>)
    ensures acc.Valid() ==> m.Valid()
  {
    match entry
    case None => acc
    case Some(e) =>
      var l := acc.Get(d).GetOr([]);
      acc.Set(d, if HasId(l, idOf(e), idOf) then l else l + [e])
  }

  lemma ListedSnoc<T>(users: seq<UserRow>, votes: seq<VoteRow>, i: int,
                      entryOf: (seq<UserRow>, VoteRow) -> Option<T>, idOf: T -> string)
    requires 0 <= i < |votes|
    ensures Listed(users, votes[..i + 1], entryOf, idOf)
      == Push(Listed(users, votes[..i], entryOf, idOf), votes[i].designId, entryOf(users, votes[i]), idOf)
  {
    assert votes[..i + 1][..i] == votes[..i];
  }

  /** `x` is the entry of some vote for design `d`. */
  ghost predicate FromVote<T>(x: T, d: string, users: seq<UserRow>, votes: seq<VoteRow>,
                              entryOf: (seq<UserRow>, VoteRow) -> Option<T>)
  {
    exists k :: 0 <= k < |votes| && votes[k].designId == d && entryOf(users, votes[k]) == Some(x)
  }

  /** What a design's list holds after the loop. */
  ghost predicate ListFor<T>(l: seq<T>, d: string, users: seq<UserRow>, votes: seq<VoteRow>,
                             entryOf: (seq<UserRow>, VoteRow) -> Option<T>, idOf: T -> string)
  {
    && (forall i, j :: 0 <= i < j < |l| ==> idOf(l[i]) != idOf(l[j]))
    && (forall i :: 0 <= i < |l| ==> FromVote(l[i], d, users, votes, entryOf))
    && (forall k :: 0 <= k < |votes| && votes[k].designId == d && entryOf(users, votes[k]).Some? ==>
          HasId(l, idOf(entryOf(users, votes[k]).value), idOf))
  }

  /**
   * Each design's list has no two entries with the same id, every entry
   * comes from a vote for that design, and every vote for it that yields
   * an entry is represented by its id.
   */
  lemma {:induction false} ListedSpec<T>(users: seq<UserRow>, votes: seq<VoteRow>,
                                         entryOf: (seq<UserRow>, VoteRow) -> Option<T>, idOf: T -> string)
    ensures forall d :: ListFor(Listed(users, votes, entryOf, idOf).Get(d).GetOr([]), d, users, votes, entryOf, idOf)
  {
    if |votes| > 0 {
      var init := votes[..|votes| - 1];
      var vote := votes[|votes| - 1];
      ListedSpec(users, init, entryOf, idOf);
      var acc := Listed(users, init, entryOf, idOf);
      forall d
        ensures ListFor(Listed(users, votes, entryOf, idOf).Get(d).GetOr([]), d, users, votes, entryOf, idOf)
      {
        ListedStep(users, init, vote, entryOf, idOf, d, acc.Get(d).GetOr([]));
        assert init + [vote] == votes;
      }
    }
  }

  /** One vote's step keeps `ListFor` for every design. */
  lemma ListedStep<T>(users: seq<UserRow>, init: seq<VoteRow>, vote: VoteRow,
                      entryOf: (seq<UserRow>, VoteRow) -> Option<T>, idOf: T -> string, d: string, l0: seq<T>)
    requires l0 == Listed(users, init, entryOf, idOf).Get(d).GetOr([])
    requires ListFor(l0, d, users, init, entryOf, idOf)
    ensures ListFor(Listed(users, init + [vote], entryOf, idOf).Get(d).GetOr([]), d, users, init + [vote], entryOf, idOf)
  {
    var votes := init + [vote];
    assert votes[..|votes| - 1] == init;
    var l := Listed(users, votes, entryOf, idOf).Get(d).GetOr([]);
    if vote.designId != d || entryOf(users, vote).None? {
      assert l == l0;
      ListForExtend(l0, d, users, init, vote, entryOf, idOf);
    } else {
      var e := entryOf(users, vote).value;
      if HasId(l0, idOf(e), idOf) {
        assert l == l0;
        ListForExtend(l0, d, users, init, vote, entryOf, idOf);
      } else {
        assert l == l0 + [e];
        ListForPush(l0, e, d, users, init, vote, entryOf, idOf);
      }
    }
  }

  lemma FromVoteExtend<T>(x: T, d: string, users: seq<UserRow>, init: seq<VoteRow>, vote: VoteRow,
                          entryOf: (seq<UserRow>, VoteRow) -> Option<T>)
    requires FromVote(x, d, users, init, entryOf)
    ensures FromVote(x, d, users, init + [vote], entryOf)
  {
    var k :| 0 <= k < |init| && init[k].designId == d && entryOf(users, init[k]) == Some(x);
    assert (init + [vote])[k] == init[k];
  }

  /** A vote that adds nothing new to the list keeps `ListFor`. */
  lemma ListForExtend<T>(l: seq<T>, d: string, users: seq<UserRow>, init: seq<VoteRow>, vote: VoteRow,
                         entryOf: (seq<UserRow>, VoteRow) -> Option<T>, idOf: T -> string)
    requires ListFor(l, d, users, init, entryOf, idOf)
    requires vote.designId == d && entryOf(users, vote).Some? ==> HasId(l, idOf(entryOf(users, vote).value), idOf)
    ensures ListFor(l, d, users, init + [vote], entryOf, idOf)
  {
    var votes := init + [vote];
    forall i | 0 <= i < |l|
      ensures FromVote(l[i], d, users, votes, entryOf)
    {
      FromVoteExtend(l[i], d, users, init, vote, entryOf);
    }
    forall k | 0 <= k < |votes| && votes[k].designId == d && entryOf(users, votes[k]).Some?
      ensures HasId(l, idOf(entryOf(users, votes[k]).value), idOf)
    {
      if k < |init| {
        assert votes[k] == init[k];
      }
    }
  }

  /** A vote whose entry is new to the list, pushed at its end, keeps `ListFor`. */
  lemma ListForPush<T>(l0: seq<T>, e: T, d: string, users: seq<UserRow>, init: seq<VoteRow>, vote: VoteRow,
                       entryOf: (seq<UserRow>, VoteRow) -> Option<T>, idOf: T -> string)
    requires ListFor(l0, d, users, init, entryOf, idOf)
    requires vote.designId == d && entryOf(users, vote) == Some(e) && !HasId(l0, idOf(e), idOf)
    ensures ListFor(l0 + [e], d, users, init + [vote], entryOf, idOf)
  {
    var votes := init + [vote];
    var l := l0 + [e];
    assert forall i :: 0 <= i < |l0| ==> l[i] == l0[i];
    assert l[|l0|] == e;
    forall i, j | 0 <= i < j < |l|
      ensures idOf(l[i]) != idOf(l[j])
    {
      if j == |l0| {
        assert idOf(l0[i]) != idOf(e);
      }
    }
    forall i | 0 <= i < |l|
      ensures FromVote(l[i], d, users, votes, entryOf)
    {
      if i < |l0| {
        FromVoteExtend(l0[i], d, users, init, vote, entryOf);
      } else {
        assert votes[|init|] == vote;
      }
    }
    forall k | 0 <= k < |votes| && votes[k].designId == d && entryOf(users, votes[k]).Some?
      ensures HasId(l, idOf(entryOf(users, votes[k]).value), idOf)
    {
      if k < |init| {
        assert votes[k] == init[k];
        var i :| 0 <= i < |l0| && idOf(l0[i]) == idOf(entryOf(users, init[k]).value);
        assert l[i] == l0[i];
      } else {
        assert votes[k] == vote;
        assert idOf(l[|l0|]) == idOf(e);
      }
    }
  }

  /** The known voters of a design, each listed once. */
  lemma VotersOfDesign(users: seq<UserRow>, votes: seq<VoteRow>, d: string)
    ensures var l := Listed(users, votes, VoterEntry, VoterId).Get(d).GetOr([]);
      && (forall i, j :: 0 <= i < j < |l| ==> l[i].id != l[j].id)
      && (forall u :: (exists i :: 0 <= i < |l| && l[i].id == u) <==>
            (exists k :: 0 <= k < |votes| && votes[k].designId == d && votes[k].voterId == u) && UserById(users, u).Some?)
  {
    ListedSpec(users, votes, VoterEntry, VoterId);
    var l := Listed(users, votes, VoterEntry, VoterId).Get(d).GetOr([]);
    assert ListFor(l, d, users, votes, VoterEntry, VoterId);
    forall u | exists i :: 0 <= i < |l| && l[i].id == u
      ensures (exists k :: 0 <= k < |votes| && votes[k].designId == d && votes[k].voterId == u) && UserById(users, u).Some?
    {
      var i :| 0 <= i < |l| && l[i].id == u;
      assert FromVote(l[i], d, users, votes, VoterEntry);
      var k :| 0 <= k < |votes| && votes[k].designId == d && VoterEntry(users, votes[k]) == Some(l[i]);
      assert votes[k].voterId == u;
    }
    forall u | (exists k :: 0 <= k < |votes| && votes[k].designId == d && votes[k].voterId == u) && UserById(users, u).Some?
      ensures exists i :: 0 <= i < |l| && l[i].id == u
    {
      var k :| 0 <= k < |votes| && votes[k].designId == d && votes[k].voterId == u;
      assert HasId(l, VoterId(VoterEntry(users, votes[k]).value), VoterId);
    }
  }

  /** The known faculty voters of a design, each listed once; nobody else is on the list. */
  lemma FacultyVotersOfDesign(users: seq<UserRow>, votes: seq<VoteRow>, d: string)
    ensures var l := Listed(users, votes, FacultyEntry, FacultyVoterId).Get(d).GetOr([]);
      && (forall i, j :: 0 <= i < j < |l| ==> l[i].id != l[j].id)
      && (forall u :: (exists i :: 0 <= i < |l| && l[i].id == u) <==>
            (exists k :: 0 <= k < |votes| && votes[k].designId == d && votes[k].voterId == u)
            && UserById(users, u).Some? && UserById(users, u).value.isFaculty)
  {
    ListedSpec(users, votes, FacultyEntry, FacultyVoterId);
    var l := Listed(users, votes, FacultyEntry, FacultyVoterId).Get(d).GetOr([]);
    assert ListFor(l, d, users, votes, FacultyEntry, FacultyVoterId);
    forall u | exists i :: 0 <= i < |l| && l[i].id == u
      ensures (exists k :: 0 <= k < |votes| && votes[k].designId == d && votes[k].voterId == u)
        && UserById(users, u).Some? && UserById(users, u).value.isFaculty
    {
      var i :| 0 <= i < |l| && l[i].id == u;
      assert FromVote(l[i], d, users, votes, FacultyEntry);
      var k :| 0 <= k < |votes| && votes[k].designId == d && FacultyEntry(users, votes[k]) == Some(l[i]);
      assert votes[k].voterId == u;
    }
    forall u | (exists k :: 0 <= k < |votes| && votes[k].designId == d && votes[k].voterId == u)
        && UserById(users, u).Some? && UserById(users, u).value.isFaculty
      ensures exists i :: 0 <= i < |l| && l[i].id == u
    {
      var k :| 0 <= k < |votes| && votes[k].designId == d && votes[k].voterId == u;
      assert HasId(l, FacultyVoterId(FacultyEntry(users, votes[k]).value), FacultyVoterId);
    }
  }

  // ---------------------------------------------------------------------
  // The loops

  /** The first `forEach`: one more design for each design row's modality. */
  method TallyDesigns(designs: seq<DesignRow>) returns (totals: OMap<string, Total>)
    ensures totals == Tally(EmptyMap(), DesignModalities(designs), false)
  {
    totals := EmptyMap();
    var mods := DesignModalities(designs);
    var i := 0;
    while i < |designs|
      invariant 0 <= i <= |designs|
      invariant totals == Tally(EmptyMap(), mods[..i], false)
    {
      var m := designs[i].modality;
      var entry := totals.Get(m).GetOr(Total(m, 0, 0));
      TallySnoc(EmptyMap(), mods, i, false, totals, m, entry);
      entry := entry.(designs := entry.designs + 1);
      totals := totals.Set(m, entry);
      i := i + 1;
    }
    assert mods[..|designs|] == mods;
  }

  /**
   * The part of the vote loop after the counts: an unknown voter is
   * skipped; a known one is added to the design's voter list, and a
   * faculty member also to its faculty list, unless already there.
   */
  method AddVoter(users: seq<UserRow>, vote: VoteRow,
                  voters0: OMap<string, seq<Voter>>, faculty0: OMap<string, seq<FacultyVoter>>)
    returns (voters: OMap<string, seq<Voter>>, facultyVoters: OMap<string, seq<FacultyVoter>>)
    ensures voters == Push(voters0, vote.designId, VoterEntry(users, vote), VoterId)
    ensures facultyVoters == Push(faculty0, vote.designId, FacultyEntry(users, vote), FacultyVoterId)
  {
    voters, facultyVoters := voters0, faculty0;
    var voter := UserById(users, vote.voterId);
    if voter.None? {
      return;
    }
    var u := voter.value;
    var voterList := voters.Get(vote.designId).GetOr([]);
    if !HasId(voterList, u.id, VoterId) {
      voterList := voterList + [Voter(u.id, u.fullName.GetOr(u.email.GetOr("Unknown voter")), u.email.GetOr("unknown"), u.isFaculty)];
    }
    voters := voters.Set(vote.designId, voterList);
    if !u.isFaculty {
      return;
    }
    var list := facultyVoters.Get(vote.designId).GetOr([]);
    if !HasId(list, u.id, FacultyVoterId) {
      list := list + [FacultyVoter(u.id, u.fullName.GetOr(u.email.GetOr("Unknown faculty")), u.email.GetOr("unknown"))];
    }
    facultyVoters := facultyVoters.Set(vote.designId, list);
  }

  /**
   * The vote `forEach`: for every vote, one more vote for its modality and
   * its design, and, for a known voter, the voter (and a faculty voter
   * also in the faculty list) added to the design's list unless already
   * there.
   */
  method TallyVotes(users: seq<UserRow>, votes: seq<VoteRow>, totals0: OMap<string, Total>)
    returns (totals: OMap<string, Total>, voteCounts: OMap<string, nat>,
             voters: OMap<string, seq<Voter>>, facultyVoters: OMap<string, seq<FacultyVoter>>)
    ensures totals == Tally(totals0, VoteModalities(votes), true)
    ensures voteCounts == CountMap(Ids(votes))
    ensures voters == Listed(users, votes, VoterEntry, VoterId)
    ensures facultyVoters == Listed(users, votes, FacultyEntry, FacultyVoterId)
  {
    totals := totals0;
    voteCounts := EmptyMap();
    voters := EmptyMap();
    facultyVoters := EmptyMap();
    var mods := VoteModalities(votes);
    var ids := Ids(votes);
    var i := 0;
    while i < |votes|
      invariant 0 <= i <= |votes|
      invariant totals == Tally(totals0, mods[..i], true)
      invariant voteCounts == CountMap(ids[..i])
      invariant voters == Listed(users, votes[..i], VoterEntry, VoterId)
      invariant facultyVoters == Listed(users, votes[..i], FacultyEntry, FacultyVoterId)
    {
      var vote := votes[i];
      CountMapSnoc(ids, i);
      ListedSnoc(users, votes, i, VoterEntry, VoterId);
      ListedSnoc(users, votes, i, FacultyEntry, FacultyVoterId);
      var m := vote.modality;
      var entry := totals.Get(m).GetOr(Total(m, 0, 0));
      TallySnoc(totals0, mods, i, true, totals, m, entry);
      entry := entry.(votes := entry.votes + 1);
      totals := totals.Set(m, entry);
      assert ids[i] == vote.designId;
      voteCounts := Bump(voteCounts, vote.designId);
      voters, facultyVoters := AddVoter(users, vote, voters, facultyVoters);
      i := i + 1;
    }
    assert mods[..|votes|] == mods;
    assert ids[..|votes|] == ids;
    assert votes[..|votes|] == votes;
  }

  // ---------------------------------------------------------------------
  // Leaderboard

  datatype LeaderEntry = LeaderEntry(
    designId: string,
    filename: string,
    artworkName: Option<string>,
    studentName: Option<string>,
    major: Option<string>,
    yearLevel: Option<string>,
    asurite: Option<string>,
    modality: string,
    storagePath: string,
    totalVotes: nat)

  /** The entry shown for design `id` with `n` votes, copied from its row. */
  function EntryFor(id: string, meta: DesignRow, n: nat): (e: LeaderEntry)
    ensures e.designId == id && e.totalVotes == n && e.modality == meta.modality
  {
    LeaderEntry(id, meta.filename, meta.artworkName, meta.studentName, meta.major, meta.yearLevel, meta.asurite,
                meta.modality, meta.storagePath, n)
  }

  /** The `leaderboardMap` fold: votes for unknown or flagged designs are skipped. */
  function LeaderMap(designs: seq<DesignRow>, votes: seq<VoteRow>): (m: OMap<string, LeaderEntry>)
    ensures m.Valid()
  {
    if |votes| == 0 then EmptyMap()
    else LeaderStep(designs, LeaderMap(designs, votes[..|votes| - 1]), votes[|votes| - 1].designId)
  }

  /** One vote for design `d`: skipped for an unknown or flagged design, otherwise its entry, or a zero one, gains a vote. */
  function LeaderStep(designs: seq<DesignRow>, acc: OMap<string, LeaderEntry>, d: string): (m: OMap<string, LeaderEntry>)
    ensures acc.Valid() ==> m.Valid()
  {
    match DesignById(designs, d)
    case None => acc
    case Some(meta) =>
      if meta.isFlagged then acc
      else
        var e := acc.Get(d).GetOr(EntryFor(d, meta, 0));
        acc.Set(d, e.(totalVotes := e.totalVotes + 1))
  }

  /** A design has a leaderboard entry exactly when it has votes and is shown; the entry counts all its votes. */
  lemma {:induction false} LeaderMapCount(designs: seq<DesignRow>, votes: seq<VoteRow>, d: string)
    ensures LeaderMap(designs, votes).Get(d)
      == if d in Ids(votes) && OnBoard(designs, d)
         then Some(EntryFor(d, DesignById(designs, d).value, Occurrences(Ids(votes), d)))
         else None
  {
    if |votes| > 0 {
      var n := |votes|;
      var init := votes[..n - 1];
      var x := votes[n - 1].designId;
      LeaderMapCount(designs, init, d);
      var acc := LeaderMap(designs, init);
      assert LeaderMap(designs, votes) == LeaderStep(designs, acc, x);
      IdsSnocCount(votes, d);
      LeaderStepCount(designs, acc, x, d, Occurrences(Ids(init), d));
    } else {
      assert LeaderMap(designs, votes) == EmptyMap();
      assert d !in Ids(votes);
    }
  }

  /** A step keeps the entry of `d` counting its votes: one more when the vote is for `d`. */
  lemma LeaderStepCount(designs: seq<DesignRow>, acc: OMap<string, LeaderEntry>, x: string, d: string, c: nat)
    requires acc.Get(d) == if c > 0 && OnBoard(designs, d) then Some(EntryFor(d, DesignById(designs, d).value, c)) else None
    ensures var c' := c + (if d == x then 1 else 0);
      LeaderStep(designs, acc, x).Get(d)
        == if c' > 0 && OnBoard(designs, d) then Some(EntryFor(d, DesignById(designs, d).value, c')) else None
  {
    LeaderStepGet(designs, acc, x, d);
  }

  /** What one step does to the entry of design `d`. */
  lemma LeaderStepGet(designs: seq<DesignRow>, acc: OMap<string, LeaderEntry>, x: string, d: string)
    ensures LeaderStep(designs, acc, x).Get(d)
      == if x == d && OnBoard(designs, d) then
           var e := acc.Get(d).GetOr(EntryFor(d, DesignById(designs, d).value, 0));
           Some(e.(totalVotes := e.totalVotes + 1))
         else acc.Get(d)
  {
    if OnBoard(designs, x) {
      LeaderStepShown(designs, acc, x, acc.Get(x).GetOr(EntryFor(x, DesignById(designs, x).value, 0)));
    } else {
      LeaderStepSkipped(designs, acc, x);
    }
  }

  /** The ids of one more vote: its design joins them and gains one occurrence. */
  lemma IdsSnocCount(votes: seq<VoteRow>, d: string)
    requires |votes| > 0
    ensures var init := votes[..|votes| - 1];
      var x := votes[|votes| - 1].designId;
      && (d in Ids(votes) <==> d in Ids(init) || d == x)
      && Occurrences(Ids(votes), d) == Occurrences(Ids(init), d) + (if d == x then 1 else 0)
  {
    var n := |votes|;
    var init := votes[..n - 1];
    IdsAppend(init, [votes[n - 1]]);
    assert init + [votes[n - 1]] == votes;
    assert Ids(votes) == Ids(init) + [votes[n - 1].designId];
    OccurrencesAppend(Ids(init), [votes[n - 1].designId], d);
  }

  /** The fold over one more vote is one more step. */
  lemma LeaderMapSnoc(designs: seq<DesignRow>, votes: seq<VoteRow>, i: int)
    requires 0 <= i < |votes|
    ensures LeaderMap(designs, votes[..i + 1]) == LeaderStep(designs, LeaderMap(designs, votes[..i]), votes[i].designId)
  {
    assert votes[..i + 1][..i] == votes[..i];
  }

  /** A vote for a shown design: its entry, or a zero one, gains a vote. */
  lemma LeaderStepShown(designs: seq<DesignRow>, acc: OMap<string, LeaderEntry>, d: string, e: LeaderEntry)
    requires OnBoard(designs, d) && e == acc.Get(d).GetOr(EntryFor(d, DesignById(designs, d).value, 0))
    ensures LeaderStep(designs, acc, d) == acc.Set(d, e.(totalVotes := e.totalVotes + 1))
  {
  }

  /** A vote for a missing or flagged design changes nothing. */
  lemma LeaderStepSkipped(designs: seq<DesignRow>, acc: OMap<string, LeaderEntry>, d: string)
    requires !OnBoard(designs, d)
    ensures LeaderStep(designs, acc, d) == acc
  {
  }

  /** The `forEach` that fills `leaderboardMap`. */
  method BuildLeaderMap(designs: seq<DesignRow>, votes: seq<VoteRow>) returns (m: OMap<string, LeaderEntry>)
    ensures m == LeaderMap(designs, votes)
  {
    m := EmptyMap();
    var i := 0;
    while i < |votes|
      invariant 0 <= i <= |votes|
      invariant m == LeaderMap(designs, votes[..i])
    {
      var d := votes[i].designId;
      var meta := DesignById(designs, d);
      LeaderMapSnoc(designs, votes, i);
      if meta.Some? && !meta.value.isFlagged {
        var entry := m.Get(d).GetOr(EntryFor(d, meta.value, 0));
        LeaderStepShown(designs, m, d, entry);
        entry := entry.(totalVotes := entry.totalVotes + 1);
        m := m.Set(d, entry);
      } else {
        LeaderStepSkipped(designs, m, d);
      }
      i := i + 1;
    }
    assert votes[..|votes|] == votes;
  }

  function EntryVotes(e: LeaderEntry): int { e.totalVotes }

  /** `Array.from(leaderboardMap.values()).sort(by votes, descending).slice(0, 5)`. */
  function Leaderboard(m: OMap<string, LeaderEntry>): (lb: seq<LeaderEntry>)
    requires m.Valid()
    ensures |lb| <= 5
  {
    var r := SortDesc(m.Values(), EntryVotes);
    if |r| <= 5 then r else r[..5]
  }

  /**
   * The leaderboard shows at most five shown designs with their full vote
   * counts, most votes first, and no shown design with votes that is
   * missing from it has more votes than the fifth entry.
   */
  lemma LeaderboardRanked(designs: seq<DesignRow>, votes: seq<VoteRow>)
    ensures var lb := Leaderboard(LeaderMap(designs, votes));
      var ids := Ids(votes);
      && |lb| <= 5
      && (forall i :: 0 <= i < |lb| ==>
            lb[i].designId in ids && OnBoard(designs, lb[i].designId) && lb[i].totalVotes == Occurrences(ids, lb[i].designId))
      && (forall i, j :: 0 <= i < j < |lb| ==> lb[i].totalVotes >= lb[j].totalVotes)
      && (forall d :: d in ids && OnBoard(designs, d) && (forall i :: 0 <= i < |lb| ==> lb[i].designId != d) ==>
            |lb| == 5 && Occurrences(ids, d) <= lb[4].totalVotes)
  {
    var lb := Leaderboard(LeaderMap(designs, votes));
    var ids := Ids(votes);
    LeaderboardEntries(designs, votes);
    LeaderboardSorted(LeaderMap(designs, votes));
    forall d | d in ids && OnBoard(designs, d) && (forall i :: 0 <= i < |lb| ==> lb[i].designId != d)
      ensures |lb| == 5 && Occurrences(ids, d) <= lb[4].totalVotes
    {
      LeaderboardCovers(designs, votes, d);
    }
  }

  /** Every leaderboard entry is a shown design with votes, with all of its votes. */
  lemma LeaderboardEntries(designs: seq<DesignRow>, votes: seq<VoteRow>)
    ensures var lb := Leaderboard(LeaderMap(designs, votes));
      forall i :: 0 <= i < |lb| ==>
        lb[i].designId in Ids(votes) && OnBoard(designs, lb[i].designId) && lb[i].totalVotes == Occurrences(Ids(votes), lb[i].designId)
  {
    var m := LeaderMap(designs, votes);
    var vals := m.Values();
    var r := SortDesc(vals, EntryVotes);
    var lb := Leaderboard(m);
    assert forall i :: 0 <= i < |lb| ==> lb[i] == r[i];
    LeaderValues(designs, votes);
    PermutationMembers(vals, r);
    forall i | 0 <= i < |lb|
      ensures lb[i] in vals
    {
      assert r[i] in r;
    }
  }

  /** The leaderboard runs from the most votes down. */
  lemma LeaderboardSorted(m: OMap<string, LeaderEntry>)
    requires m.Valid()
    ensures var lb := Leaderboard(m);
      forall i, j :: 0 <= i < j < |lb| ==> lb[i].totalVotes >= lb[j].totalVotes
  {
    var vals := m.Values();
    var r := SortDesc(vals, EntryVotes);
    var lb := Leaderboard(m);
    assert forall i :: 0 <= i < |lb| ==> lb[i] == r[i];
    SortDescSorted(vals, EntryVotes);
    forall i, j | 0 <= i < j < |lb|
      ensures lb[i].totalVotes >= lb[j].totalVotes
    {
      assert EntryVotes(r[i]) >= EntryVotes(r[j]);
    }
  }

  /** A shown design with votes that is not on the leaderboard has no more votes than the fifth entry. */
  lemma LeaderboardCovers(designs: seq<DesignRow>, votes: seq<VoteRow>, d: string)
    requires d in Ids(votes) && OnBoard(designs, d)
    requires var lb := Leaderboard(LeaderMap(designs, votes)); forall i :: 0 <= i < |lb| ==> lb[i].designId != d
    ensures var lb := Leaderboard(LeaderMap(designs, votes)); |lb| == 5 && Occurrences(Ids(votes), d) <= lb[4].totalVotes
  {
    var m := LeaderMap(designs, votes);
    var vals := m.Values();
    var r := SortDesc(vals, EntryVotes);
    var lb := Leaderboard(m);
    LeaderMapCount(designs, votes, d);
    assert m.Get(d).Some?;
    var k :| 0 <= k < |m.keys| && m.keys[k] == d;
    var e := vals[k];
    assert e.designId == d && e.totalVotes == Occurrences(Ids(votes), d);
    PermutationMembers(vals, r);
    assert e in r;
    var j :| 0 <= j < |r| && r[j] == e;
    LeaderboardPrefix(m);
    assert j >= 5;
    SortDescSorted(vals, EntryVotes);
    assert EntryVotes(r[4]) >= EntryVotes(r[j]);
  }

  /** The leaderboard is the first five values in ranking order, or all of them when there are fewer. */
  lemma LeaderboardPrefix(m: OMap<string, LeaderEntry>)
    requires m.Valid()
    ensures var r := SortDesc(m.Values(), EntryVotes);
      var lb := Leaderboard(m);
      && |lb| == (if |r| <= 5 then |r| else 5)
      && forall i :: 0 <= i < |lb| ==> lb[i] == r[i]
  {
  }


  /** Every leaderboard entry is a shown design with votes, counting all of them. */
  lemma LeaderValues(designs: seq<DesignRow>, votes: seq<VoteRow>)
    ensures var ids := Ids(votes);
      forall x :: x in LeaderMap(designs, votes).Values() ==>
        x.designId in ids && OnBoard(designs, x.designId) && x.totalVotes == Occurrences(ids, x.designId)
  {
    var m := LeaderMap(designs, votes);
    var vals := m.Values();
    forall x | x in vals
      ensures x.designId in Ids(votes) && OnBoard(designs, x.designId) && x.totalVotes == Occurrences(Ids(votes), x.designId)
    {
      var k :| 0 <= k < |vals| && vals[k] == x;
      assert m.Get(m.keys[k]) == Some(x);
      LeaderMapCount(designs, votes, m.keys[k]);
    }
  }

  // ---------------------------------------------------------------------
  // Leader of each modality

  /** The `reduce` into `topByModality`: an entry replaces the current one only with strictly more votes. */
  function TopByModality(entries: seq<LeaderEntry>): (r: OMap<string, LeaderEntry>)
    ensures r.Valid()
  {
    if |entries| == 0 then EmptyMap()
    else
      var acc := TopByModality(entries[..|entries| - 1]);
      var e := entries[|entries| - 1];
      var current := acc.Get(e.modality);
      if current.None? || e.totalVotes > current.value.totalVotes then acc.Set(e.modality, e) else acc
  }

  /** Entry `i` has the most votes of its modality, and every earlier entry of that modality has fewer. */
  predicate FirstMax(entries: seq<LeaderEntry>, i: int)
    requires 0 <= i < |entries|
  {
    && (forall j :: 0 <= j < |entries| && entries[j].modality == entries[i].modality ==>
          entries[j].totalVotes <= entries[i].totalVotes)
    && (forall j :: 0 <= j < i && entries[j].modality == entries[i].modality ==>
          entries[j].totalVotes < entries[i].totalVotes)
  }

  /** Modality `m`'s leader is the first of its entries with the most votes. */
  ghost predicate LeaderOf(entries: seq<LeaderEntry>, m: string, top: LeaderEntry) {
    exists i :: 0 <= i < |entries| && entries[i] == top && top.modality == m && FirstMax(entries, i)
  }

  /**
   * Every modality with an entry gets the first of its entries with the
   * most votes (a tie keeps the earlier one), and no other modality
   * appears.
   */
  lemma TopByModalitySpec(entries: seq<LeaderEntry>)
    ensures forall m :: TopByModality(entries).Get(m).None? <==> forall i :: 0 <= i < |entries| ==> entries[i].modality != m
    ensures forall m :: TopByModality(entries).Get(m).Some? ==> LeaderOf(entries, m, TopByModality(entries).Get(m).value)
  {
    forall m
      ensures TopByModality(entries).Get(m).None? <==> forall i :: 0 <= i < |entries| ==> entries[i].modality != m
      ensures TopByModality(entries).Get(m).Some? ==> LeaderOf(entries, m, TopByModality(entries).Get(m).value)
    {
      TopNoneSpec(entries, m);
      TopFor(entries, m);
    }
  }

  lemma {:induction false} TopFor(entries: seq<LeaderEntry>, m: string)
    ensures TopByModality(entries).Get(m).Some? ==> LeaderOf(entries, m, TopByModality(entries).Get(m).value)
  {
    if |entries| > 0 {
      var init := entries[..|entries| - 1];
      var n := |entries| - 1;
      var e := entries[n];
      TopFor(init, m);
      var cur := TopByModality(init).Get(m);
      assert entries == init + [e];
      if e.modality == m && (cur.None? || e.totalVotes > cur.value.totalVotes) {
        assert TopByModality(entries).Get(m) == Some(e);
        if cur.None? {
          TopNoneSpec(init, m);
          TopFirst(init, e);
        } else {
          var i :| 0 <= i < |init| && init[i] == cur.value && init[i].modality == m && FirstMax(init, i);
          TopReplace(init, e, i);
        }
        assert FirstMax(entries, n);
      } else {
        assert TopByModality(entries).Get(m) == cur;
        if cur.Some? {
          var i :| 0 <= i < |init| && init[i] == cur.value && init[i].modality == m && FirstMax(init, i);
          TopKeep(init, e, i);
          assert entries[i] == cur.value;
        }
      }
    } else {
      assert TopByModality(entries) == EmptyMap();
    }
  }

  /** The first entry of its modality leads it. */
  lemma TopFirst(init: seq<LeaderEntry>, e: LeaderEntry)
    requires forall i :: 0 <= i < |init| ==> init[i].modality != e.modality
    ensures FirstMax(init + [e], |init|)
  {
  }

  /** An entry with strictly more votes than the leader so far leads. */
  lemma TopReplace(init: seq<LeaderEntry>, e: LeaderEntry, i: int)
    requires 0 <= i < |init| && init[i].modality == e.modality && FirstMax(init, i)
    requires e.totalVotes > init[i].totalVotes
    ensures FirstMax(init + [e], |init|)
  {
  }

  /** An entry of another modality, or with no more votes, leaves the leader in place. */
  lemma TopKeep(init: seq<LeaderEntry>, e: LeaderEntry, i: int)
    requires 0 <= i < |init| && FirstMax(init, i)
    requires e.modality == init[i].modality ==> e.totalVotes <= init[i].totalVotes
    ensures FirstMax(init + [e], i)
  {
  }

  /** A modality without an entry in the fold has no entries. */
  lemma {:induction false} TopNoneSpec(entries: seq<LeaderEntry>, m: string)
    ensures TopByModality(entries).Get(m).None? <==> forall i :: 0 <= i < |entries| ==> entries[i].modality != m
  {
    if |entries| > 0 {
      var init := entries[..|entries| - 1];
      TopNoneSpec(init, m);
      assert forall j :: 0 <= j < |init| ==> entries[j] == init[j];
    }
  }

  // ---------------------------------------------------------------------
  // Faculty leaderboard

  /** `users.filter((user) => user.is_faculty)`; its length is `facultyCount`. */
  function FacultyUsers(users: seq<UserRow>): (r: seq<UserRow>)
    ensures forall u :: u in r <==> u in users && u.isFaculty
  {
    Filter(users, (u: UserRow) => u.isFaculty)
  }

  /** `facultyIds`: the ids of the faculty users. */
  function FacultyIds(users: seq<UserRow>): (ids: set<string>)
    ensures forall id :: id in ids <==> exists u :: u in users && u.isFaculty && u.id == id
  {
    set u | u in users && u.isFaculty :: u.id
  }

  /** The votes cast by faculty users, in order. */
  function FacultyVotes(users: seq<UserRow>, votes: seq<VoteRow>): seq<VoteRow> {
    Filter(votes, ByFaculty(users))
  }

  /** `facultyIds.has(vote.voter_id)`. */
  function ByFaculty(users: seq<UserRow>): VoteRow -> bool {
    (v: VoteRow) => v.voterId in FacultyIds(users)
  }

  /** One more vote: counted when its voter is on the faculty, skipped otherwise. */
  lemma FacultyCountSnoc(users: seq<UserRow>, votes: seq<VoteRow>, i: int, counts: OMap<string, nat>)
    requires 0 <= i < |votes| && counts == CountMap(Ids(FacultyVotes(users, votes[..i])))
    ensures CountMap(Ids(FacultyVotes(users, votes[..i + 1])))
      == if votes[i].voterId in FacultyIds(users) then Bump(counts, votes[i].designId) else counts
  {
    var before := FacultyVotes(users, votes[..i]);
    FacultyVotesSnoc(users, votes, i);
    if votes[i].voterId in FacultyIds(users) {
      assert FacultyVotes(users, votes[..i + 1]) == before + [votes[i]];
      CountIdsSnoc(before, votes[i]);
    } else {
      assert FacultyVotes(users, votes[..i + 1]) == before + [];
      assert before + [] == before;
    }
  }

  lemma FacultyVotesSnoc(users: seq<UserRow>, votes: seq<VoteRow>, i: int)
    requires 0 <= i < |votes|
    ensures FacultyVotes(users, votes[..i + 1])
      == FacultyVotes(users, votes[..i]) + if votes[i].voterId in FacultyIds(users) then [votes[i]] else []
  {
    FilterSnoc(votes, i, ByFaculty(users));
    assert ByFaculty(users)(votes[i]) == (votes[i].voterId in FacultyIds(users));
  }

  lemma CountIdsSnoc(a: seq<VoteRow>, v: VoteRow)
    ensures CountMap(Ids(a + [v])) == Bump(CountMap(Ids(a)), v.designId)
  {
    IdsAppend(a, [v]);
    assert Ids(a + [v]) == Ids(a) + [v.designId];
    CountMapAppendOne(Ids(a), v.designId);
  }

  /** The `forEach` that fills `facultyCounts`: votes by anyone not on the faculty are skipped. */
  method CountFacultyVotes(users: seq<UserRow>, votes: seq<VoteRow>) returns (counts: OMap<string, nat>)
    ensures counts == CountMap(Ids(FacultyVotes(users, votes)))
  {
    var facultyIds := FacultyIds(users);
    counts := EmptyMap();
    var i := 0;
    while i < |votes|
      invariant 0 <= i <= |votes|
      invariant counts == CountMap(Ids(FacultyVotes(users, votes[..i])))
    {
      FacultyCountSnoc(users, votes, i, counts);
      if votes[i].voterId in facultyIds {
        counts := Bump(counts, votes[i].designId);
      }
      i := i + 1;
    }
    assert votes[..|votes|] == votes;
  }

  /** The entry for one `facultyCounts` pair: none for an unknown or flagged design. */
  function FacultyRow(designs: seq<DesignRow>, e: (string, nat)): (r: Option<LeaderEntry>)
    ensures r.Some? <==> OnBoard(designs, e.0)
    ensures r.Some? ==> r.value == EntryFor(e.0, DesignById(designs, e.0).value, e.1)
  {
    match DesignById(designs, e.0)
    case None => None
    case Some(meta) => if meta.isFlagged then None else Some(EntryFor(e.0, meta, e.1))
  }

  /** `facultyLeaderboard`: the shown designs with faculty votes, most faculty votes first. */
  function FacultyLeaderboard(designs: seq<DesignRow>, counts: OMap<string, nat>): seq<LeaderEntry>
    requires counts.Valid()
  {
    SortDesc(Somes(FacultyRows(designs, counts)), EntryVotes)
  }

  /** `Array.from(facultyCounts.entries()).map(...)`: the entry of each counted design, or none for a design not shown. */
  function FacultyRows(designs: seq<DesignRow>, counts: OMap<string, nat>): (r: seq<Option<LeaderEntry>>)
    requires counts.Valid()
    ensures |r| == |counts.keys|
    ensures forall i :: 0 <= i < |r| ==> r[i] == FacultyRow(designs, (counts.keys[i], counts.vals[counts.keys[i]]))
  {
    var es := counts.Entries();
    seq(|es|, i requires 0 <= i < |es| => FacultyRow(designs, es[i]))
  }

  /**
   * The faculty leaderboard is sorted by faculty votes, and holds exactly
   * the shown designs with at least one faculty vote, each with its number
   * of faculty votes.
   */
  lemma FacultyLeaderboardSpec(users: seq<UserRow>, votes: seq<VoteRow>, designs: seq<DesignRow>, fl: seq<LeaderEntry>)
    requires fl == FacultyLeaderboard(designs, CountMap(Ids(FacultyVotes(users, votes))))
    ensures forall i, j :: 0 <= i < j < |fl| ==> fl[i].totalVotes >= fl[j].totalVotes
    ensures forall x :: x in fl <==> FacultyShown(x, designs, Ids(FacultyVotes(users, votes)))
  {
    var fids := Ids(FacultyVotes(users, votes));
    SortDescSorted(Somes(FacultyRows(designs, CountMap(fids))), EntryVotes);
    forall x | x in fl
      ensures FacultyShown(x, designs, fids)
    {
      FacultyListedShown(designs, fids, fl, x);
    }
    forall x | FacultyShown(x, designs, fids)
      ensures x in fl
    {
      FacultyShownListed(designs, fids, fl, x);
    }
  }

  /** The entry of a shown design with faculty votes: its metadata and its number of faculty votes. */
  ghost predicate FacultyShown(x: LeaderEntry, designs: seq<DesignRow>, fids: seq<string>) {
    && x.designId in fids
    && OnBoard(designs, x.designId)
    && x == EntryFor(x.designId, DesignById(designs, x.designId).value, Occurrences(fids, x.designId))
  }

  /** Every entry of the faculty leaderboard is a shown design with faculty votes. */
  lemma FacultyListedShown(designs: seq<DesignRow>, fids: seq<string>, fl: seq<LeaderEntry>, x: LeaderEntry)
    requires fl == FacultyLeaderboard(designs, CountMap(fids)) && x in fl
    ensures FacultyShown(x, designs, fids)
  {
    var rows := FacultyRows(designs, CountMap(fids));
    PermutationMembers(Somes(rows), fl);
    assert Some(x) in rows;
    var i :| 0 <= i < |rows| && rows[i] == Some(x);
    FacultyRowShown(designs, fids, i, x);
  }

  /** The entry built from the `i`th counted design is a shown design with its faculty votes. */
  lemma FacultyRowShown(designs: seq<DesignRow>, fids: seq<string>, i: int, x: LeaderEntry)
    requires 0 <= i < |CountMap(fids).keys| && FacultyRows(designs, CountMap(fids))[i] == Some(x)
    ensures FacultyShown(x, designs, fids)
  {
    var counts := CountMap(fids);
    var k := counts.keys[i];
    assert OnBoard(designs, k) && x == EntryFor(k, DesignById(designs, k).value, counts.vals[k]);
    CountMapCounts(fids);
    assert counts.Get(k) == Some(counts.vals[k]);
  }

  /** Every shown design with faculty votes is on the faculty leaderboard. */
  lemma FacultyShownListed(designs: seq<DesignRow>, fids: seq<string>, fl: seq<LeaderEntry>, x: LeaderEntry)
    requires fl == FacultyLeaderboard(designs, CountMap(fids)) && FacultyShown(x, designs, fids)
    ensures x in fl
  {
    var counts := CountMap(fids);
    var rows := FacultyRows(designs, counts);
    PermutationMembers(Somes(rows), fl);
    CountMapCounts(fids);
    assert counts.Get(x.designId) == Some(Occurrences(fids, x.designId));
    var k :| 0 <= k < |counts.keys| && counts.keys[k] == x.designId;
    assert rows[k] == Some(x);
  }

  // ---------------------------------------------------------------------
  // RSVP tallies

  datatype RsvpCounts = RsvpCounts(yes: nat, no: nat, total: nat)

  /** The `will_attend` column. */
  function Answers(rows: seq<RsvpRow>): (r: seq<string>)
    ensures |r| == |rows| && forall i :: 0 <= i < |rows| ==> r[i] == rows[i].willAttend
  {
    seq(|rows|, i requires 0 <= i < |rows| => rows[i].willAttend)
  }

  /** The `reduce` into `rsvpCounts`: every row counts towards the total, exact "yes" and "no" towards theirs. */
  function CountRsvps(rows: seq<RsvpRow>): RsvpCounts {
    if |rows| == 0 then RsvpCounts(0, 0, 0)
    else
      var acc := CountRsvps(rows[..|rows| - 1]);
      var answer := rows[|rows| - 1].willAttend;
      var next := if answer == "yes" then acc.(yes := acc.yes + 1)
                  else if answer == "no" then acc.(no := acc.no + 1)
                  else acc;
      next.(total := next.total + 1)
  }

  /** The total is the number of rows; "yes" and "no" count exact answers, so they never exceed it together. */
  lemma {:induction false} RsvpCountsSpec(rows: seq<RsvpRow>)
    ensures var c := CountRsvps(rows);
      && c.total == |rows|
      && c.yes == Occurrences(Answers(rows), "yes")
      && c.no == Occurrences(Answers(rows), "no")
      && c.yes + c.no <= c.total
  {
    if |rows| > 0 {
      var init := rows[..|rows| - 1];
      RsvpCountsSpec(init);
      assert Answers(rows)[..|rows| - 1] == Answers(init);
    }
  }

  // ---------------------------------------------------------------------
  // Per-design breakdown

  datatype BreakdownRow = BreakdownRow(
    designId: string,
    title: string,
    modality: string,
    totalVotes: nat,
    facultyVotes: nat,
    facultyVoters: seq<FacultyVoter>,
    voters: seq<Voter>)

  /** The breakdown of one design row, read from the maps of the vote loop. */
  function BreakdownOf(row: DesignRow, voteCounts: OMap<string, nat>,
                       voters: OMap<string, seq<Voter>>, faculty: OMap<string, seq<FacultyVoter>>): BreakdownRow
  {
    var facultyVoters := faculty.Get(row.id).GetOr([]);
    BreakdownRow(row.id, row.artworkName.GetOr(row.filename), row.modality, voteCounts.Get(row.id).GetOr(0),
                 |facultyVoters|, facultyVoters, voters.Get(row.id).GetOr([]))
  }

  function BreakdownVotes(b: BreakdownRow): int { b.totalVotes }

  /** `typedDesignRows.map(...)`: the breakdown of each design row, in table order. */
  function BreakdownRows(designs: seq<DesignRow>, voteCounts: OMap<string, nat>,
                         voters: OMap<string, seq<Voter>>, faculty: OMap<string, seq<FacultyVoter>>): (r: seq<BreakdownRow>)
    ensures |r| == |designs| && forall i :: 0 <= i < |designs| ==> r[i] == BreakdownOf(designs[i], voteCounts, voters, faculty)
  {
    seq(|designs|, i requires 0 <= i < |designs| => BreakdownOf(designs[i], voteCounts, voters, faculty))
  }

  /** `designVoteBreakdown`: one row per design, most votes first. */
  function Breakdown(designs: seq<DesignRow>, voteCounts: OMap<string, nat>,
                     voters: OMap<string, seq<Voter>>, faculty: OMap<string, seq<FacultyVoter>>): seq<BreakdownRow>
  {
    SortDesc(BreakdownRows(designs, voteCounts, voters, faculty), BreakdownVotes)
  }

  /** What a breakdown row says about design row `row`. */
  ghost predicate Describes(b: BreakdownRow, row: DesignRow, users: seq<UserRow>, votes: seq<VoteRow>) {
    && b.designId == row.id
    && b.title == row.artworkName.GetOr(row.filename)
    && b.modality == row.modality
    && b.totalVotes == Occurrences(Ids(votes), row.id)
    && b.facultyVotes == |b.facultyVoters|
    && (forall i, j :: 0 <= i < j < |b.facultyVoters| ==> b.facultyVoters[i].id != b.facultyVoters[j].id)
    && (forall i :: 0 <= i < |b.facultyVoters| ==>
          UserById(users, b.facultyVoters[i].id).Some? && UserById(users, b.facultyVoters[i].id).value.isFaculty)
    && (forall i, j :: 0 <= i < j < |b.voters| ==> b.voters[i].id != b.voters[j].id)
  }

  /**
   * The breakdown has one row per design, most votes first; each counts
   * all the design's votes (0 without any), and lists its distinct voters
   * and distinct faculty voters, the faculty count being the length of
   * that list.
   */
  lemma BreakdownSpec(users: seq<UserRow>, votes: seq<VoteRow>, designs: seq<DesignRow>, b: seq<BreakdownRow>)
    requires b == Breakdown(designs, CountMap(Ids(votes)), Listed(users, votes, VoterEntry, VoterId),
                            Listed(users, votes, FacultyEntry, FacultyVoterId))
    ensures |b| == |designs|
    ensures forall i, j :: 0 <= i < j < |b| ==> b[i].totalVotes >= b[j].totalVotes
    ensures forall i :: 0 <= i < |b| ==> exists k :: 0 <= k < |designs| && Describes(b[i], designs[k], users, votes)
    ensures forall k :: 0 <= k < |designs| ==> exists i :: 0 <= i < |b| && Describes(b[i], designs[k], users, votes)
  {
    SortDescSorted(BreakdownRows(designs, CountMap(Ids(votes)), Listed(users, votes, VoterEntry, VoterId),
                                 Listed(users, votes, FacultyEntry, FacultyVoterId)), BreakdownVotes);
    forall i | 0 <= i < |b|
      ensures exists k :: 0 <= k < |designs| && Describes(b[i], designs[k], users, votes)
    {
      BreakdownFrom(users, votes, designs, b, i);
    }
    forall k | 0 <= k < |designs|
      ensures exists i :: 0 <= i < |b| && Describes(b[i], designs[k], users, votes)
    {
      BreakdownTo(users, votes, designs, b, k);
    }
  }

  /** Each row of the breakdown describes one of the designs. */
  lemma BreakdownFrom(users: seq<UserRow>, votes: seq<VoteRow>, designs: seq<DesignRow>, b: seq<BreakdownRow>, i: int)
    requires b == Breakdown(designs, CountMap(Ids(votes)), Listed(users, votes, VoterEntry, VoterId),
                            Listed(users, votes, FacultyEntry, FacultyVoterId))
    requires 0 <= i < |b|
    ensures exists k :: 0 <= k < |designs| && Describes(b[i], designs[k], users, votes)
  {
    var rows := BreakdownRows(designs, CountMap(Ids(votes)), Listed(users, votes, VoterEntry, VoterId),
                              Listed(users, votes, FacultyEntry, FacultyVoterId));
    SortDescSorted(rows, BreakdownVotes);
    var k := SourceIndex(rows, b, i);
    BreakdownDescribes(users, votes, designs[k]);
    assert Describes(b[i], designs[k], users, votes);
  }

  /** Each design is described by one row of the breakdown. */
  lemma BreakdownTo(users: seq<UserRow>, votes: seq<VoteRow>, designs: seq<DesignRow>, b: seq<BreakdownRow>, k: int)
    requires b == Breakdown(designs, CountMap(Ids(votes)), Listed(users, votes, VoterEntry, VoterId),
                            Listed(users, votes, FacultyEntry, FacultyVoterId))
    requires 0 <= k < |designs|
    ensures exists i :: 0 <= i < |b| && Describes(b[i], designs[k], users, votes)
  {
    var rows := BreakdownRows(designs, CountMap(Ids(votes)), Listed(users, votes, VoterEntry, VoterId),
                              Listed(users, votes, FacultyEntry, FacultyVoterId));
    SortDescSorted(rows, BreakdownVotes);
    var i := SourceIndex(b, rows, k);
    BreakdownDescribes(users, votes, designs[k]);
    assert Describes(b[i], designs[k], users, votes);
  }

  /** One design's breakdown row, built from the maps of the vote loop, describes it. */
  lemma BreakdownDescribes(users: seq<UserRow>, votes: seq<VoteRow>, row: DesignRow)
    ensures Describes(BreakdownOf(row, CountMap(Ids(votes)), Listed(users, votes, VoterEntry, VoterId),
                                  Listed(users, votes, FacultyEntry, FacultyVoterId)), row, users, votes)
  {
    CountMapCounts(Ids(votes));
    VotersOfDesign(users, votes, row.id);
    FacultyVotersOfDesign(users, votes, row.id);
    var fv := Listed(users, votes, FacultyEntry, FacultyVoterId).Get(row.id).GetOr([]);
    ListedSpec(users, votes, FacultyEntry, FacultyVoterId);
    assert ListFor(fv, row.id, users, votes, FacultyEntry, FacultyVoterId);
    forall i | 0 <= i < |fv|
      ensures UserById(users, fv[i].id).Some? && UserById(users, fv[i].id).value.isFaculty
    {
      assert FromVote(fv[i], row.id, users, votes, FacultyEntry);
      var k :| 0 <= k < |votes| && votes[k].designId == row.id && FacultyEntry(users, votes[k]) == Some(fv[i]);
    }
  }

  // ---------------------------------------------------------------------
  // The handler

  datatype Report = Report(
    totals: seq<Total>,
    leaderboard: seq<LeaderEntry>,
    topByModality: OMap<string, LeaderEntry>,
    facultyLeaderboard: seq<LeaderEntry>,
    facultyCount: nat,
    breakdown: seq<BreakdownRow>,
    rsvpCounts: RsvpCounts)

  datatype AnalyticsReply = Loaded(report: Report) | LoadFailed(status: int, message: string)

  /** The report the handler computes from the rows it read. */
  function ReportOf(rank: string -> int, designs: seq<DesignRow>, votes: seq<VoteRow>,
                    users: seq<UserRow>, rsvps: seq<RsvpRow>): Report
  {
    var leaders := LeaderMap(designs, votes);
    Report(
      SortedTotals(TotalsMap(designs, votes), rank),
      Leaderboard(leaders),
      TopByModality(leaders.Values()),
      FacultyLeaderboard(designs, CountMap(Ids(FacultyVotes(users, votes)))),
      |FacultyUsers(users)|,
      Breakdown(designs, CountMap(Ids(votes)), Listed(users, votes, VoterEntry, VoterId),
                Listed(users, votes, FacultyEntry, FacultyVoterId)),
      CountRsvps(rsvps))
  }

  /**
   * A GET of the analytics: any failed read gives 500 "Failed to load
   * analytics"; otherwise the loops and pipelines run over the rows read.
   * `rank` stands for the collation `localeCompare` uses.
   */
  method LoadAnalytics(rank: string -> int, designs: seq<DesignRow>, votes: seq<VoteRow>,
                       users: seq<UserRow>, rsvps: seq<RsvpRow>, readFails: bool)
    returns (reply: AnalyticsReply)
    ensures readFails ==> reply == LoadFailed(500, "Failed to load analytics")
    ensures !readFails ==> reply == Loaded(ReportOf(rank, designs, votes, users, rsvps))
  {
    if readFails {
      return LoadFailed(500, "Failed to load analytics");
    }
    var totals0 := TallyDesigns(designs);
    var totals, voteCounts, voters, facultyVoters := TallyVotes(users, votes, totals0);
    var leaders := BuildLeaderMap(designs, votes);
    var facultyCounts := CountFacultyVotes(users, votes);
    reply := Loaded(Report(
      SortedTotals(totals, rank),
      Leaderboard(leaders),
      TopByModality(leaders.Values()),
      FacultyLeaderboard(designs, facultyCounts),
      |FacultyUsers(users)|,
      Breakdown(designs, voteCounts, voters, facultyVoters),
      CountRsvps(rsvps)));
  }
}

/**
 * The voting page's own logic: the settings it reads, the tally of the
 * signed-in user's votes, the vote limit and the votes left in a
 * modality, the designs shown and their division into carousel pages, the
 * page index, the guards before a vote is cast and the opening time.
 */
module VotePage {
  import opened Wrappers
  import opened Collections
  import opened Js

  // ---------------------------------------------------------------------
  // Settings

  datatype SettingsRow = SettingsRow(key: string, value: string)

  /** Row `i` sets `key`: its key is `key` and its value reads as a finite number. */
  predicate SetsKey(rows: seq<SettingsRow>, rt: Runtime, i: int, key: string) {
    0 <= i < |rows| && rows[i].key == key && rt.numberOf(rows[i].value).Some?
  }

  /** The `forEach` into `parsed` over the first rows; `parsed` starts as `{ default: 1 }`. */
  function Settings(rows: seq<SettingsRow>, rt: Runtime): map<string, int> {
    if |rows| == 0 then map["default" := 1]
    else
      var acc := Settings(rows[..|rows| - 1], rt);
      var row := rows[|rows| - 1];
      match rt.numberOf(row.value)
      case Some(n) => acc[row.key := n]
      case None => acc
  }

  /** A key is set exactly when it is "default" or some row sets it. */
  lemma {:induction false} SettingsKeys(rows: seq<SettingsRow>, rt: Runtime, key: string)
    ensures key in Settings(rows, rt) <==> key == "default" || exists i :: SetsKey(rows, rt, i, key)
  {
    if |rows| > 0 {
      var init := rows[..|rows| - 1];
      var last := |rows| - 1;
      SettingsKeys(init, rt, key);
      assert key in Settings(rows, rt) <==> key in Settings(init, rt) || SetsKey(rows, rt, last, key);
      if exists i :: SetsKey(rows, rt, i, key) {
        var i :| SetsKey(rows, rt, i, key);
        if i < last {
          assert SetsKey(init, rt, i, key);
        }
      }
      if exists i :: SetsKey(init, rt, i, key) {
        var i :| SetsKey(init, rt, i, key);
        assert SetsKey(rows, rt, i, key);
      }
    }
  }

  /** A key holds the value of the last row setting it. */
  lemma {:induction false} SettingsLast(rows: seq<SettingsRow>, rt: Runtime, key: string, i: int)
    requires SetsKey(rows, rt, i, key)
    requires forall j :: i < j < |rows| ==> !SetsKey(rows, rt, j, key)
    ensures key in Settings(rows, rt) && Settings(rows, rt)[key] == rt.numberOf(rows[i].value).value
  {
    var init := rows[..|rows| - 1];
    if i < |rows| - 1 {
      assert !SetsKey(rows, rt, |rows| - 1, key);
      assert SetsKey(init, rt, i, key);
      forall j | i < j < |init| ensures !SetsKey(init, rt, j, key) {
        assert !SetsKey(rows, rt, j, key);
      }
      SettingsLast(init, rt, key, i);
    }
  }

  /** With no row setting it, "default" is 1. */
  lemma {:induction false} SettingsDefault(rows: seq<SettingsRow>, rt: Runtime)
    requires forall i :: !SetsKey(rows, rt, i, "default")
    ensures "default" in Settings(rows, rt) && Settings(rows, rt)["default"] == 1
  {
    if |rows| > 0 {
      var init := rows[..|rows| - 1];
      assert !SetsKey(rows, rt, |rows| - 1, "default");
      forall i ensures !SetsKey(init, rt, i, "default") {
        assert SetsKey(init, rt, i, "default") ==> SetsKey(rows, rt, i, "default");
      }
      SettingsDefault(init, rt);
    }
  }

  /** `fetchSettings`'s loop over the rows it read. */
  method ParseSettings(rows: seq<SettingsRow>, rt: Runtime) returns (parsed: map<string, int>)
    ensures parsed == Settings(rows, rt)
  {
    parsed := map["default" := 1];
    for i := 0 to |rows|
      invariant parsed == Settings(rows[..i], rt)
    {
      assert rows[..i + 1][..i] == rows[..i];
      var n := rt.numberOf(rows[i].value);
      if n.Some? {
        parsed := parsed[rows[i].key := n.value];
      }
    }
    assert rows[..|rows|] == rows;
  }

  // ---------------------------------------------------------------------
  // The user's votes and the limit

  /** `fetchVotes`'s tally over the modalities of the user's vote rows. */
  method TallyByModality(modalities: seq<string>) returns (tally: OMap<string, nat>)
    ensures tally == CountMap(modalities)
    ensures forall m :: tally.Get(m) == if m in modalities then Some(Occurrences(modalities, m)) else None
  {
    tally := EmptyMap();
    for i := 0 to |modalities|
      invariant tally == CountMap(modalities[..i])
    {
      CountMapSnoc(modalities, i);
      tally := Bump(tally, modalities[i]);
    }
    assert modalities[..|modalities|] == modalities;
    CountMapCounts(modalities);
  }

  /** `limitForModality`: `votes_per_<m>`, else `votes_<m>`, else `default`, else 1; a set 0 is kept. */
  function LimitFor(settings: map<string, int>, m: string): int {
    if "votes_per_" + m in settings then settings["votes_per_" + m]
    else if "votes_" + m in settings then settings["votes_" + m]
    else if "default" in settings then settings["default"]
    else 1
  }

  /**
   * With parsed settings the limit is the value of `votes_per_<m>` when a
   * row sets it (an explicit 0 included), else of `votes_<m>`, else of
   * `default`. `default` is always set, so the final 1 is reached only
   * through the initial `{ default: 1 }`.
   */
  lemma LimitFromRows(rows: seq<SettingsRow>, rt: Runtime, m: string)
    ensures "default" in Settings(rows, rt)
    ensures var settings := Settings(rows, rt);
      && ((exists i :: SetsKey(rows, rt, i, "votes_per_" + m)) ==>
            "votes_per_" + m in settings && LimitFor(settings, m) == settings["votes_per_" + m])
      && ((forall i :: !SetsKey(rows, rt, i, "votes_per_" + m)) && (exists i :: SetsKey(rows, rt, i, "votes_" + m)) ==>
            "votes_" + m in settings && LimitFor(settings, m) == settings["votes_" + m])
      && ((forall i :: !SetsKey(rows, rt, i, "votes_per_" + m)) && (forall i :: !SetsKey(rows, rt, i, "votes_" + m)) ==>
            LimitFor(settings, m) == settings["default"])
  {
    SettingsKeys(rows, rt, "default");
    SettingsKeys(rows, rt, "votes_per_" + m);
    SettingsKeys(rows, rt, "votes_" + m);
    assert ("votes_per_" + m)[0] == 'v' && ("votes_" + m)[0] == 'v';
  }

  /** With no settings rows, the limit is 1 in every modality. */
  lemma LimitWithoutRows(rt: Runtime, m: string)
    ensures LimitFor(Settings([], rt), m) == 1
  {
    assert ("votes_per_" + m)[0] == 'v' && ("votes_" + m)[0] == 'v';
  }

  /** `remainingVotes`: the limit less the votes used, never below 0. */
  function Remaining(settings: map<string, int>, tally: OMap<string, nat>, m: string): (r: int)
    ensures r >= 0
    ensures r == 0 <==> tally.Get(m).GetOr(0) >= LimitFor(settings, m)
    ensures r > 0 ==> r == LimitFor(settings, m) - tally.Get(m).GetOr(0)
  {
    var limit := LimitFor(settings, m);
    var used := tally.Get(m).GetOr(0);
    if limit - used > 0 then limit - used else 0
  }

  /** Over the tally of the user's votes, the votes left count the user's votes in the modality. */
  lemma RemainingCountsVotes(settings: map<string, int>, modalities: seq<string>, m: string)
    ensures var r := Remaining(settings, CountMap(modalities), m);
      var used := Occurrences(modalities, m);
      r == if LimitFor(settings, m) > used then LimitFor(settings, m) - used else 0
  {
    CountMapCounts(modalities);
  }

  // ---------------------------------------------------------------------
  // Casting a vote

  datatype VoteStep = AskSignIn | AtLimit | Cast

  /** The guards of `handleVote`: no session, then no votes left; only then is `cast_vote` called. */
  function HandleVote(signedIn: bool, remaining: int): (step: VoteStep)
    ensures step == AskSignIn <==> !signedIn
    ensures step == Cast <==> signedIn && remaining != 0
  {
    if !signedIn then AskSignIn else if remaining == 0 then AtLimit else Cast
  }

  /** The message a refused vote shows. */
  function VoteMessage(step: VoteStep): Option<string> {
    match step
    case AskSignIn => Some("Sign in to vote")
    case AtLimit => Some("Vote limit reached for this modality")
    case Cast => None
  }

  /** A vote is only sent while the user has fewer votes in the modality than the limit. */
  lemma CastOnlyUnderLimit(settings: map<string, int>, modalities: seq<string>, m: string, signedIn: bool)
    requires HandleVote(signedIn, Remaining(settings, CountMap(modalities), m)) == Cast
    ensures Occurrences(modalities, m) < LimitFor(settings, m)
    ensures VoteMessage(HandleVote(signedIn, Remaining(settings, CountMap(modalities), m))).None?
  {
    RemainingCountsVotes(settings, modalities, m);
  }

  /** `VOTING_START_TIMESTAMP`: 2026-01-17T00:00:00-07:00 in milliseconds since the epoch. */
  const VotingStartMs := 1_768_633_200_000

  /** `isVotingOpen`. */
  predicate VotingOpen(nowMs: int) {
    nowMs >= VotingStartMs
  }

  /** Once open, voting stays open. */
  lemma VotingStaysOpen(t: int, later: int)
    requires VotingOpen(t) && t <= later
    ensures VotingOpen(later)
  {
  }

  // ---------------------------------------------------------------------
  // The designs shown and their pages

  datatype ShownDesign = ShownDesign(id: string, filename: string, artworkName: Option<string>, modality: string, storagePath: string)

  /** `visibleDesigns`: the designs of the selected modality, in their order. */
  function Visible(designs: seq<ShownDesign>, selected: string): (r: seq<ShownDesign>)
    ensures forall d :: d in r <==> d in designs && d.modality == selected
  {
    Filter(designs, (d: ShownDesign) => d.modality == selected)
  }

  /** Consecutive slices of `n` items, the last holding what is left. */
  function Chunks<T>(s: seq<T>, n: int): seq<seq<T>>
    requires n > 0
    decreases |s|
  {
    if |s| == 0 then []
    else if |s| <= n then [s]
    else [s[..n]] + Chunks(s[n..], n)
  }

  /** `pagedDesigns`: no pages for a non-positive page size. */
  function Pages<T>(s: seq<T>, n: int): seq<seq<T>> {
    if n <= 0 then [] else Chunks(s, n)
  }

  function Flatten<T>(ss: seq<seq<T>>): seq<T> {
    if |ss| == 0 then [] else ss[0] + Flatten(ss[1..])
  }

  /** The pages put back together are the list. */
  lemma {:induction false} ChunksFlatten<T>(s: seq<T>, n: int)
    requires n > 0
    ensures Flatten(Chunks(s, n)) == s
    decreases |s|
  {
    if |s| > n {
      var rest := Chunks(s[n..], n);
      ChunksFlatten(s[n..], n);
      assert ([s[..n]] + rest)[1..] == rest;
      assert s == s[..n] + s[n..];
    } else if |s| > 0 {
      assert Flatten([s]) == s + Flatten([]);
    }
  }

  /** Each page holds between 1 and `n` items, all but the last exactly `n`. */
  lemma {:induction false} ChunksSizes<T>(s: seq<T>, n: int)
    requires n > 0
    ensures forall i :: 0 <= i < |Chunks(s, n)| ==> 1 <= |Chunks(s, n)[i]| <= n
    ensures forall i :: 0 <= i < |Chunks(s, n)| - 1 ==> |Chunks(s, n)[i]| == n
    decreases |s|
  {
    if |s| > n {
      var rest := Chunks(s[n..], n);
      ChunksSizes(s[n..], n);
      assert Chunks(s, n) == [s[..n]] + rest;
      assert forall i :: 1 <= i < |rest| + 1 ==> Chunks(s, n)[i] == rest[i - 1];
    }
  }

  /** There are ⌈|s| / n⌉ pages. */
  lemma {:induction false} ChunksCount<T>(s: seq<T>, n: int)
    requires n > 0
    ensures |Chunks(s, n)| == (|s| + n - 1) / n
    decreases |s|
  {
    var a := |s| + n - 1;
    if |s| > n {
      var m := |s| - n;
      ChunksCount(s[n..], n);
      assert |Chunks(s, n)| == 1 + |Chunks(s[n..], n)|;
      DivPlusDivisor(m + n - 1, n);
      assert a == (m + n - 1) + n;
    } else if |s| > 0 {
      assert |Chunks(s, n)| == 1;
      DivUnique(a, n, 1, |s| - 1);
    } else {
      DivUnique(a, n, 0, n - 1);
    }
  }

  lemma DivPlusDivisor(a: int, n: int)
    requires a >= 0 && n > 0
    ensures (a + n) / n == a / n + 1
  {
    var q, r := a / n, a % n;
    assert (q + 1) * n == q * n + n;
    DivUnique(a + n, n, q + 1, r);
  }

  /** Euclidean division has one quotient. */
  lemma DivUnique(a: int, n: int, q: int, r: int)
    requires n > 0 && 0 <= r < n && a == q * n + r
    ensures a / n == q
  {
    var q', r' := a / n, a % n;
    if q > q' {
      assert (q - q') * n == q * n - q' * n;
      MulAtLeast(q - q', n);
    } else if q < q' {
      assert (q' - q) * n == q' * n - q * n;
      MulAtLeast(q' - q, n);
    }
  }

  lemma {:induction false} MulAtLeast(k: int, n: int)
    requires k >= 1 && n > 0
    ensures k * n >= n
    decreases k
  {
    if k > 1 {
      MulAtLeast(k - 1, n);
      assert k * n == (k - 1) * n + n;
    }
  }

  /** `pagedDesigns` concatenates to `visibleDesigns`, in pages of 1 to `n` items, all full but the last. */
  lemma PagesSpec<T>(s: seq<T>, n: int)
    ensures n <= 0 ==> Pages(s, n) == []
    ensures n > 0 ==> Flatten(Pages(s, n)) == s && |Pages(s, n)| == (|s| + n - 1) / n
    ensures n > 0 ==> forall i :: 0 <= i < |Pages(s, n)| ==> 1 <= |Pages(s, n)[i]| <= n
    ensures n > 0 ==> forall i :: 0 <= i < |Pages(s, n)| - 1 ==> |Pages(s, n)[i]| == n
  {
    if n > 0 {
      ChunksFlatten(s, n);
      ChunksSizes(s, n);
      ChunksCount(s, n);
    }
  }

  /** The `for` loop that builds `pagedDesigns`, one `slice(index, index + n)` per step. */
  method PageDesigns<T>(visible: seq<T>, n: int) returns (chunks: seq<seq<T>>)
    ensures chunks == Pages(visible, n)
  {
    if n <= 0 {
      return [];
    }
    chunks := [];
    var index := 0;
    while index < |visible|
      invariant 0 <= index
      invariant chunks + Chunks(visible[Min(index, |visible|)..], n) == Chunks(visible, n)
      decreases |visible| - index
    {
      var end := Min(index + n, |visible|);
      ChunksStep(visible, index, n);
      chunks := chunks + [visible[index..end]];
      index := index + n;
    }
    assert visible[Min(index, |visible|)..] == [];
  }

  function Min(a: int, b: int): int {
    if a < b then a else b
  }

  /** One step of the loop: the slice at `index` is the first chunk of what is left. */
  lemma ChunksStep<T>(s: seq<T>, index: int, n: int)
    requires n > 0 && 0 <= index < |s|
    ensures Chunks(s[index..], n) == [s[index..Min(index + n, |s|)]] + Chunks(s[Min(index + n, |s|)..], n)
  {
    var rest := s[index..];
    if index + n < |s| {
      assert rest[..n] == s[index..index + n];
      assert rest[n..] == s[index + n..];
    } else {
      assert rest == s[index..|s|];
      assert s[|s|..] == [];
    }
  }

  // ---------------------------------------------------------------------
  // The current page

  /** The highest page index: one less than the number of pages, and 0 with none. */
  function MaxPage(totalPages: nat): nat {
    if totalPages > 0 then totalPages - 1 else 0
  }

  predicate PageInRange(page: int, totalPages: nat) {
    0 <= page <= MaxPage(totalPages)
  }

  /** The effect run when the number of pages changes: `min(previous, maxIndex)`. */
  function ClampOnResize(previous: int, totalPages: nat): (page: int)
    ensures previous >= 0 ==> PageInRange(page, totalPages)
    ensures 0 <= previous <= MaxPage(totalPages) ==> page == previous
  {
    if previous < MaxPage(totalPages) then previous else MaxPage(totalPages)
  }

  /**
   * `handlePageChange`: nothing happens without a mounted carousel or
   * without pages; otherwise the requested page is clamped into range.
   */
  function ChangePage(current: int, next: int, mounted: bool, totalPages: nat): (page: int)
    ensures !mounted || totalPages == 0 ==> page == current
    ensures mounted && totalPages > 0 ==> PageInRange(page, totalPages)
    ensures mounted && PageInRange(next, totalPages) && totalPages > 0 ==> page == next
  {
    if !mounted || totalPages == 0 then current
    else
      var atLeast := if next > 0 then next else 0;
      if atLeast < MaxPage(totalPages) then atLeast else MaxPage(totalPages)
  }

  /**
   * `handleCarouselScroll`, given the rounded scroll position `rawIndex`:
   * nothing with at most one page or a zero-width viewport, else the
   * position clamped into range.
   */
  function ScrollToPage(current: int, rawIndex: int, width: int, totalPages: nat): (page: int)
    ensures totalPages <= 1 || width == 0 ==> page == current
    ensures totalPages > 1 && width != 0 ==> PageInRange(page, totalPages)
  {
    if totalPages <= 1 || width == 0 then current
    else
      var atLeast := if rawIndex > 0 then rawIndex else 0;
      if atLeast < totalPages - 1 then atLeast else totalPages - 1
  }

  /**
   * Starting from the reset to 0, every page update the page performs
   * keeps the index between 0 and the last page.
   */
  lemma PageStaysInRange(current: int, next: int, rawIndex: int, width: int, mounted: bool, before: nat, after: nat)
    requires PageInRange(current, before)
    ensures PageInRange(0, after)
    ensures PageInRange(ClampOnResize(current, after), after)
    ensures PageInRange(ChangePage(current, next, mounted, before), before)
    ensures PageInRange(ScrollToPage(current, rawIndex, width, before), before)
  {
  }
}

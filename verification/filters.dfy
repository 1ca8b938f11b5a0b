/** The row filters of the dashboard: the player search (an entry is kept when it
    holds every selected player) and the four select boxes, applied as a cascade
    in which each box only offers the values left by the boxes before it. */
module Filters {
  import opened Seqs
  import opened Picks
  import opened Sanitize

  // ---------------------------------------------------------------------------
  // Player search.

  /** Draft entry `e` of `rows` has a pick whose name, stripped, is `name` stripped. */
  predicate HasPlayer(rows: seq<Pick>, e: string, name: string)
  {
    exists p :: p in rows && p.entry == e && Strip(PlayerName(p)) == Strip(name)
  }

  /** Row mask "the row's entry holds every player of `selected`". */
  function HoldsAll(rows: seq<Pick>, selected: seq<string>): Pick -> bool
  {
    (p: Pick) => forall j :: 0 <= j < |selected| ==> HasPlayer(rows, p.entry, selected[j])
  }

  /** The rows kept by the player search: every row of every entry that contains
      all selected players. An empty selection keeps the whole table. */
  function PlayerFilter(rows: seq<Pick>, selected: seq<string>): (r: seq<Pick>)
    ensures forall p :: p in r <==>
      p in rows && forall j :: 0 <= j < |selected| ==> HasPlayer(rows, p.entry, selected[j])
    ensures |selected| == 0 ==> r == rows
  {
    var r := Filter(rows, HoldsAll(rows, selected));
    assert |selected| == 0 ==> r == rows by {
      if |selected| == 0 {
        FilterKeepsAll(rows, HoldsAll(rows, selected));
      }
    }
    r
  }

  /** The entries whose rows include the player `name` (`player_drafts`). */
  function DraftsWith(rows: seq<Pick>, name: string): (r: set<string>)
    ensures forall e :: e in r <==> HasPlayer(rows, e, name)
  {
    set p | p in rows && Strip(PlayerName(p)) == Strip(name) :: p.entry
  }

  /** Holding the first `k` players is holding the first `k - 1` and player `k`. */
  lemma HoldsAllSnoc(rows: seq<Pick>, selected: seq<string>, k: int, p: Pick)
    requires 1 <= k <= |selected|
    ensures HoldsAll(rows, selected[..k])(p) ==
      (HoldsAll(rows, selected[..k - 1])(p) && HasPlayer(rows, p.entry, selected[k - 1]))
  {
    assert forall j :: 0 <= j < k - 1 ==> selected[..k][j] == selected[..k - 1][j];
  }

  /** The search as the dashboard runs it. With players selected, one mask over the
      rows is intersected player by player with "the entry is among
      `player_drafts`"; a set mask is applied, while a mask still unset shows the
      "no drafts found" warning and stops (no rows). The flag `warned` reports the
      warning; it is never raised, because the loop over a non-empty selection
      always sets the mask. */
  method PlayerSearchAsWritten(rows: seq<Pick>, selected: seq<string>) returns (base: seq<Pick>, warned: bool)
    ensures base == PlayerFilter(rows, selected)
    ensures !warned
  {
    if |selected| == 0 {
      base, warned := rows, false;
    } else {
      var mask, hasMask := DraftMask(rows, selected);
      if hasMask {
        base := ApplyMask(rows, mask, HoldsAll(rows, selected));
        warned := false;
      } else {
        base, warned := [], true;
      }
    }
  }

  /** The loop building `draft_mask`, with `hasMask` telling whether the mask is no
      longer `None`: the first player's drafts, then and-ed with each further
      player's drafts. The mask is set exactly when some player is selected, and
      then marks the rows whose entry holds every selected player. */
  method DraftMask(rows: seq<Pick>, selected: seq<string>) returns (mask: seq<bool>, hasMask: bool)
    ensures hasMask <==> |selected| > 0
    ensures hasMask ==> |mask| == |rows|
    ensures hasMask ==> forall i :: 0 <= i < |rows| ==> mask[i] == HoldsAll(rows, selected)(rows[i])
  {
    hasMask := false;
    mask := [];
    var k := 0;
    while k < |selected|
      invariant 0 <= k <= |selected|
      invariant hasMask <==> k > 0
      invariant !hasMask ==> mask == []
      invariant hasMask ==> mask == MaskUpTo(rows, selected, k)
    {
      mask := NextMask(rows, mask, DraftsWith(rows, selected[k]), hasMask);
      hasMask := true;
      k := k + 1;
    }
    if hasMask {
      MaskUpToMeaning(rows, selected, k);
      assert selected[..k] == selected;
      assert MarksFirst(rows, selected, k, mask);
    }
  }

  /** The mask after the first `k` players have been and-ed in. */
  function MaskUpTo(rows: seq<Pick>, selected: seq<string>, k: int): seq<bool>
    requires 1 <= k <= |selected|
  {
    if k == 1 then NextMask(rows, [], DraftsWith(rows, selected[0]), false)
    else NextMask(rows, MaskUpTo(rows, selected, k - 1), DraftsWith(rows, selected[k - 1]), true)
  }

  /** `mask` marks exactly the rows whose entry holds the first `k` selected players. */
  ghost predicate MarksFirst(rows: seq<Pick>, selected: seq<string>, k: int, mask: seq<bool>)
    requires 0 <= k <= |selected|
  {
    |mask| == |rows| && forall i :: 0 <= i < |rows| ==> mask[i] == HoldsAll(rows, selected[..k])(rows[i])
  }

  /** The mask after `k` players marks exactly the rows whose entry holds the
      first `k` selected players. */
  lemma {:induction false} MaskUpToMeaning(rows: seq<Pick>, selected: seq<string>, k: int)
    requires 1 <= k <= |selected|
    ensures MarksFirst(rows, selected, k, MaskUpTo(rows, selected, k))
  {
    if k == 1 {
      MaskFirst(rows, selected);
    } else {
      MaskUpToMeaning(rows, selected, k - 1);
      MaskNext(rows, selected, k);
    }
  }

  /** The first round: the mask is `isin` of the first player's drafts. */
  lemma MaskFirst(rows: seq<Pick>, selected: seq<string>)
    requires 1 <= |selected|
    ensures MarksFirst(rows, selected, 1, MaskUpTo(rows, selected, 1))
  {
    var next := MaskUpTo(rows, selected, 1);
    forall i | 0 <= i < |rows|
      ensures next[i] == HoldsAll(rows, selected[..1])(rows[i])
    {
      HoldsAllSnoc(rows, selected, 1, rows[i]);
    }
  }

  /** A later round: and-ing in the drafts of player `k` turns the mask for the
      first `k - 1` players into the mask for the first `k`. */
  lemma MaskNext(rows: seq<Pick>, selected: seq<string>, k: int)
    requires 2 <= k <= |selected|
    requires MarksFirst(rows, selected, k - 1, MaskUpTo(rows, selected, k - 1))
    ensures MarksFirst(rows, selected, k, MaskUpTo(rows, selected, k))
  {
    var mask := MaskUpTo(rows, selected, k - 1);
    var next := MaskUpTo(rows, selected, k);
    assert next == NextMask(rows, mask, DraftsWith(rows, selected[k - 1]), true);
    forall i | 0 <= i < |rows|
      ensures next[i] == HoldsAll(rows, selected[..k])(rows[i])
    {
      HoldsAllSnoc(rows, selected, k, rows[i]);
    }
  }

  /** `isin(player_drafts)`, and-ed into the mask once it exists. */
  function NextMask(rows: seq<Pick>, mask: seq<bool>, drafts: set<string>, started: bool): (next: seq<bool>)
    requires started ==> |mask| == |rows|
    ensures |next| == |rows|
    ensures forall i :: 0 <= i < |rows| ==> next[i] == ((!started || mask[i]) && rows[i].entry in drafts)
  {
    if !started then seq(|rows|, i requires 0 <= i < |rows| => rows[i].entry in drafts)
    else seq(|rows|, i requires 0 <= i < |rows| => mask[i] && rows[i].entry in drafts)
  }

  /** Two players who never share an entry leave no row when both are selected. */
  lemma NoEntryHoldsBoth(rows: seq<Pick>, x: string, y: string)
    requires forall p :: p in rows ==> !(HasPlayer(rows, p.entry, x) && HasPlayer(rows, p.entry, y))
    ensures PlayerFilter(rows, [x, y]) == []
  {
    forall p | p in rows ensures !HoldsAll(rows, [x, y])(p) {
      assert [x, y][0] == x && [x, y][1] == y;
    }
    FilterNone(rows, HoldsAll(rows, [x, y]));
  }

  /** A table that survives sanitising unchanged, holding two complete drafts in
      two pools, where neither draft holds the other's first player. Selecting both
      first players leaves no row, yet the search as written raises no warning:
      the run then stops at the empty-table error. */
  lemma NoWarningForDisjointPlayers(one: seq<Pick>, two: seq<Pick>)
    requires |one| == RosterSize && |two| == RosterSize
    requires forall p :: p in one ==> p.pool == one[0].pool && p.entry == one[0].entry
    requires forall p :: p in two ==> p.pool == two[0].pool && p.entry == two[0].entry
    requires one[0].pool != two[0].pool && one[0].entry != two[0].entry
    requires forall p :: p in one ==> Strip(PlayerName(p)) != Strip(PlayerName(two[0]))
    requires forall p :: p in two ==> Strip(PlayerName(p)) != Strip(PlayerName(one[0]))
    ensures Sanitized(one + two) == one + two
    ensures PlayerFilter(one + two, [PlayerName(one[0]), PlayerName(two[0])]) == []
  {
    var rows := one + two;
    TwoFullPools(one, two);
    var x, y := PlayerName(one[0]), PlayerName(two[0]);
    Absent(rows, one[0].entry, y);
    Absent(rows, two[0].entry, x);
    forall p | p in rows
      ensures p.entry == one[0].entry || p.entry == two[0].entry
    {
    }
    NoEntryHoldsBoth(rows, x, y);
  }

  /** Two pools of six rows each are both kept whole by sanitising. */
  lemma TwoFullPools(one: seq<Pick>, two: seq<Pick>)
    requires |one| == RosterSize && |two| == RosterSize
    requires forall p :: p in one ==> p.pool == one[0].pool
    requires forall p :: p in two ==> p.pool == two[0].pool
    requires one[0].pool != two[0].pool
    ensures Sanitized(one + two) == one + two
  {
    var rows := one + two;
    var q1, q2 := one[0].pool, two[0].pool;
    assert PoolSize(rows, q1) == RosterSize by {
      FilterConcat(one, two, PoolIs(q1));
      OnePoolCount(one, two);
    }
    assert PoolSize(rows, q2) == RosterSize by {
      FilterConcat(one, two, PoolIs(q2));
      OnePoolCount(two, one);
    }
    forall p | p in rows
      ensures InCompletePool(rows)(p)
    {
      assert p.pool == q1 || p.pool == q2;
    }
    FilterKeepsAll(rows, InCompletePool(rows));
  }

  lemma OnePoolCount(one: seq<Pick>, two: seq<Pick>)
    requires |one| > 0 && |two| > 0
    requires forall p :: p in one ==> p.pool == one[0].pool
    requires forall p :: p in two ==> p.pool == two[0].pool
    requires one[0].pool != two[0].pool
    ensures Count(one, PoolIs(one[0].pool)) == |one| && Count(two, PoolIs(one[0].pool)) == 0
  {
    FilterKeepsAll(one, PoolIs(one[0].pool));
    FilterNone(two, PoolIs(one[0].pool));
  }

  lemma Absent(rows: seq<Pick>, e: string, name: string)
    requires forall p :: p in rows ==> p.entry != e || Strip(PlayerName(p)) != Strip(name)
    ensures !HasPlayer(rows, e, name)
  {
  }

  /** The search as evidently intended: a selection that no draft satisfies stops
      with the warning instead of continuing on an empty table. */
  function PlayerSearch(rows: seq<Pick>, selected: seq<string>): (r: Result<seq<Pick>>)
    ensures r.Err? <==> |selected| > 0 && PlayerFilter(rows, selected) == []
    ensures r.Err? ==> r.error == NoCommonDraft
    ensures r.Ok? ==> r.value == PlayerFilter(rows, selected) && (|selected| == 0 || |r.value| > 0)
  {
    var base := PlayerFilter(rows, selected);
    if |selected| > 0 && base == [] then Err(NoCommonDraft) else Ok(base)
  }

  /** Entry `e` holds every selected player. */
  predicate EntryHoldsAll(rows: seq<Pick>, selected: seq<string>, e: string)
  {
    forall j :: 0 <= j < |selected| ==> HasPlayer(rows, e, selected[j])
  }

  /** The search keeps or drops each entry whole. */
  lemma PlayerFilterKeepsWholeEntries(rows: seq<Pick>, selected: seq<string>, e: string)
    ensures EntryRows(PlayerFilter(rows, selected), e) == EntryRows(rows, e)
         || EntryRows(PlayerFilter(rows, selected), e) == []
  {
    var r := PlayerFilter(rows, selected);
    var keep := HoldsAll(rows, selected);
    FilterFilter(rows, keep, EntryIs(e), (p: Pick) => keep(p) && EntryIs(e)(p));
    FilterFilter(rows, EntryIs(e), keep, (p: Pick) => EntryIs(e)(p) && keep(p));
    FilterExt(rows, (p: Pick) => keep(p) && EntryIs(e)(p), (p: Pick) => EntryIs(e)(p) && keep(p));
    var rowsOfE := Filter(rows, EntryIs(e));
    if EntryHoldsAll(rows, selected, e) {
      forall p | p in rowsOfE ensures keep(p) { }
      FilterKeepsAll(rowsOfE, keep);
    } else {
      forall p | p in rowsOfE ensures !keep(p) { }
    }
  }

  /** Only the set of selected names matters: their order and repetitions do not. */
  lemma PlayerFilterSelectionOrder(rows: seq<Pick>, a: seq<string>, b: seq<string>)
    requires forall y :: y in a <==> y in b
    ensures PlayerFilter(rows, a) == PlayerFilter(rows, b)
  {
    forall p | p in rows
      ensures HoldsAll(rows, a)(p) == HoldsAll(rows, b)(p)
    {
      if HoldsAll(rows, a)(p) {
        forall j | 0 <= j < |b| ensures HasPlayer(rows, p.entry, b[j]) {
          assert b[j] in a;
          var i :| 0 <= i < |a| && a[i] == b[j];
        }
      }
      if HoldsAll(rows, b)(p) {
        forall j | 0 <= j < |a| ensures HasPlayer(rows, p.entry, a[j]) {
          assert a[j] in b;
          var i :| 0 <= i < |b| && b[i] == a[j];
        }
      }
    }
    FilterExt(rows, HoldsAll(rows, a), HoldsAll(rows, b));
  }

  /** Selecting more players narrows the result: searching for `a + b` is searching
      for `a`, then keeping the entries that also hold every player of `b`. */
  lemma PlayerFilterNarrows(rows: seq<Pick>, a: seq<string>, b: seq<string>)
    ensures PlayerFilter(rows, a + b) == Filter(PlayerFilter(rows, a), HoldsAll(rows, b))
  {
    forall p
      ensures HoldsAll(rows, a + b)(p) == (HoldsAll(rows, a)(p) && HoldsAll(rows, b)(p))
    {
      if HoldsAll(rows, a)(p) && HoldsAll(rows, b)(p) {
        forall j | 0 <= j < |a + b| ensures HasPlayer(rows, p.entry, (a + b)[j]) {
          if j >= |a| {
            assert (a + b)[j] == b[j - |a|];
          }
        }
      }
      if HoldsAll(rows, a + b)(p) {
        forall j | 0 <= j < |b| ensures HasPlayer(rows, p.entry, b[j]) {
          assert (a + b)[|a| + j] == b[j];
        }
        forall j | 0 <= j < |a| ensures HasPlayer(rows, p.entry, a[j]) {
          assert (a + b)[j] == a[j];
        }
      }
    }
    FilterFilter(rows, HoldsAll(rows, a), HoldsAll(rows, b), HoldsAll(rows, a + b));
  }

  /** Surrounding whitespace in a selected name makes no difference. */
  lemma PlayerFilterIgnoresPadding(rows: seq<Pick>, selected: seq<string>, padded: seq<string>)
    requires |padded| == |selected|
    requires forall j :: 0 <= j < |selected| ==> Strip(padded[j]) == Strip(selected[j])
    ensures PlayerFilter(rows, padded) == PlayerFilter(rows, selected)
  {
    forall p | p in rows
      ensures HoldsAll(rows, padded)(p) == HoldsAll(rows, selected)(p)
    {
      assert forall j :: 0 <= j < |selected| ==>
        HasPlayer(rows, p.entry, padded[j]) == HasPlayer(rows, p.entry, selected[j]);
    }
    FilterExt(rows, HoldsAll(rows, padded), HoldsAll(rows, selected));
  }

  // ---------------------------------------------------------------------------
  // The select boxes.

  /** The choice that leaves a box's column unfiltered. */
  const All: string := "All"

  /** Row mask of one box: every row when the choice is "All", else the rows whose
      column `c` equals the choice. */
  function Accepts(c: Column, choice: string): Pick -> bool
  {
    (p: Pick) => choice == All || Cell(p, c) == choice
  }

  /** One select box applied to a table. */
  function Narrow(rows: seq<Pick>, c: Column, choice: string): (r: seq<Pick>)
    ensures forall p :: p in r <==> p in rows && (choice == All || Cell(p, c) == choice)
    ensures choice == All ==> r == rows
  {
    if choice == All then rows else Filter(rows, CellIs(c, choice))
  }

  lemma NarrowIsFilter(rows: seq<Pick>, c: Column, choice: string)
    ensures Narrow(rows, c, choice) == Filter(rows, Accepts(c, choice))
  {
    if choice == All {
      FilterKeepsAll(rows, Accepts(c, choice));
    } else {
      FilterExt(rows, CellIs(c, choice), Accepts(c, choice));
    }
  }

  /** The options of a box: "All", then the distinct values of its column in the
      table the box sees, in ascending order. */
  function Options(rows: seq<Pick>, c: Column): (r: seq<string>)
    ensures |r| > 0 && r[0] == All
    ensures StrictlyAscending(r[1..])
    ensures forall v :: v in r[1..] <==> exists p :: p in rows && Cell(p, c) == v
  {
    var values := ColumnValues(rows, c);
    var r := [All] + SortedDistinct(values);
    assert r[1..] == SortedDistinct(values);
    assert forall v :: v in values <==> exists p :: p in rows && Cell(p, c) == v by {
      forall v | v in values ensures exists p :: p in rows && Cell(p, c) == v {
        var i :| 0 <= i < |values| && values[i] == v;
        assert rows[i] in rows;
      }
      forall v | exists p :: p in rows && Cell(p, c) == v ensures v in values {
        var p :| p in rows && Cell(p, c) == v;
        var i :| 0 <= i < |rows| && rows[i] == p;
        assert values[i] == v;
      }
    }
    r
  }

  /** The option list is determined by the values present: any list of "All"
      followed by exactly those values in strictly ascending order is it. This is
      the order of Python's `sorted` on distinct strings. */
  lemma OptionsAreUnique(rows: seq<Pick>, c: Column, o: seq<string>)
    requires |o| > 0 && o[0] == All && StrictlyAscending(o[1..])
    requires forall v :: v in o[1..] <==> exists p :: p in rows && Cell(p, c) == v
    ensures o == Options(rows, c)
  {
    var r := Options(rows, c);
    StrictlyAscendingUnique(o[1..], r[1..]);
    assert o == [All] + o[1..] && r == [All] + r[1..];
  }

  /** Picking any offered option of a non-empty table leaves a non-empty table. */
  lemma OfferedChoiceKeepsRows(rows: seq<Pick>, c: Column, choice: string)
    requires |rows| > 0
    requires choice in Options(rows, c)
    ensures |Narrow(rows, c, choice)| > 0
  {
    var opts := Options(rows, c);
    if choice != All {
      var i :| 0 <= i < |opts| && opts[i] == choice;
      assert opts[1..][i - 1] == choice;
      var p :| p in rows && Cell(p, c) == choice;
      assert p in Narrow(rows, c, choice);
    } else {
      assert rows[0] in Narrow(rows, c, choice);
    }
  }

  /** Boxes on different columns commute. */
  lemma NarrowCommutes(rows: seq<Pick>, c1: Column, v1: string, c2: Column, v2: string)
    ensures Narrow(Narrow(rows, c1, v1), c2, v2) == Narrow(Narrow(rows, c2, v2), c1, v1)
  {
    var both := (p: Pick) => Accepts(c1, v1)(p) && Accepts(c2, v2)(p);
    NarrowIsFilter(rows, c1, v1);
    NarrowIsFilter(Narrow(rows, c1, v1), c2, v2);
    NarrowIsFilter(rows, c2, v2);
    NarrowIsFilter(Narrow(rows, c2, v2), c1, v1);
    FilterFilter(rows, Accepts(c1, v1), Accepts(c2, v2), both);
    FilterFilter(rows, Accepts(c2, v2), Accepts(c1, v1), both);
  }

  /** The choices of the four boxes. */
  datatype Selection = Selection(title: string, position: string, team: string, draft: string)

  /** The boxes in the dashboard's order: draft pool title, position, team, draft entry. */
  function Cascade(base: seq<Pick>, s: Selection): (r: seq<Pick>)
    ensures |r| <= |base|
  {
    var t := Narrow(base, TitleColumn, s.title);
    var p := Narrow(t, PositionColumn, s.position);
    var m := Narrow(p, TeamColumn, s.team);
    Narrow(m, EntryColumn, s.draft)
  }

  /** Row mask "matches every box of `s`". */
  function Matches(s: Selection): Pick -> bool
  {
    (p: Pick) =>
      && (s.title == All || p.title == s.title)
      && (s.position == All || p.position == s.position)
      && (s.team == All || p.team == s.team)
      && (s.draft == All || p.entry == s.draft)
  }

  /** The cascade is one conjunctive filter: a row survives exactly when it matches
      every box, in the order of the table, whatever the order of the boxes. */
  lemma CascadeIsConjunction(base: seq<Pick>, s: Selection)
    ensures Cascade(base, s) == Filter(base, Matches(s))
  {
    var a1 := Accepts(TitleColumn, s.title);
    var a2 := Accepts(PositionColumn, s.position);
    var a3 := Accepts(TeamColumn, s.team);
    var a4 := Accepts(EntryColumn, s.draft);
    var t := Narrow(base, TitleColumn, s.title);
    var p := Narrow(t, PositionColumn, s.position);
    var m := Narrow(p, TeamColumn, s.team);
    NarrowIsFilter(base, TitleColumn, s.title);
    NarrowIsFilter(t, PositionColumn, s.position);
    NarrowIsFilter(p, TeamColumn, s.team);
    NarrowIsFilter(m, EntryColumn, s.draft);
    var a12 := (x: Pick) => a1(x) && a2(x);
    var a123 := (x: Pick) => a12(x) && a3(x);
    FilterFilter(base, a1, a2, a12);
    FilterFilter(base, a12, a3, a123);
    FilterFilter(base, a123, a4, Matches(s));
  }

  /** The selection is made of offered options: each box's choice is among the
      options computed on the table the boxes before it leave. */
  ghost predicate Offered(base: seq<Pick>, s: Selection)
  {
    var t := Narrow(base, TitleColumn, s.title);
    var p := Narrow(t, PositionColumn, s.position);
    var m := Narrow(p, TeamColumn, s.team);
    && s.title in Options(base, TitleColumn)
    && s.position in Options(t, PositionColumn)
    && s.team in Options(p, TeamColumn)
    && s.draft in Options(m, EntryColumn)
  }

  /** Boxes only offer values that occur, so any offered selection on a non-empty
      table leaves at least one row. */
  lemma OfferedSelectionKeepsRows(base: seq<Pick>, s: Selection)
    requires |base| > 0
    requires Offered(base, s)
    ensures |Cascade(base, s)| > 0
  {
    var t := Narrow(base, TitleColumn, s.title);
    var p := Narrow(t, PositionColumn, s.position);
    var m := Narrow(p, TeamColumn, s.team);
    OfferedChoiceKeepsRows(base, TitleColumn, s.title);
    OfferedChoiceKeepsRows(t, PositionColumn, s.position);
    OfferedChoiceKeepsRows(p, TeamColumn, s.team);
    OfferedChoiceKeepsRows(m, EntryColumn, s.draft);
  }
}

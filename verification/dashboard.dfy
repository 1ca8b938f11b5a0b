/** The dashboard's processing of one uploaded table, from the raw rows to what it
    displays: the sport, the number of drafts, each draft's first pick, the
    exposure table and the stack label of every draft left by the filters. */
module Dashboard {
  import opened Seqs
  import opened Picks
  import opened SportDetect
  import opened Sanitize
  import Nfl
  import Nba
  import opened Filters
  import opened Exposure

  /** The teams of some rows, in row order. */
  function TeamsOf(rows: seq<Pick>): seq<string>
  {
    ColumnValues(rows, TeamColumn)
  }

  /** The stack label of draft `e`, computed on all of its rows in `df`. */
  function EntryStack(sport: Sport, df: seq<Pick>, e: string): (r: Result<string>)
    ensures sport == NFL ==> r.Ok?
    ensures r.Err? ==> r.error == MissingIndex
  {
    match sport
    case NFL => Ok(Nfl.StackText(Nfl.ClassifyStack(EntryRows(df, e))))
    case NBA =>
      var s := Nba.ClassifyStack(TeamsOf(EntryRows(df, e)));
      if s.Err? then Err(s.error) else Ok(Nba.StackText(s.value))
  }

  /** The stack label of every draft left by the filters. Labels are read from the
      sanitised table, so rows removed by the position or team boxes still count;
      a label that raises leaves the breakdown without any chart, in its place the
      error message. */
  function StackBreakdown(sport: Sport, df: seq<Pick>, filtered: seq<Pick>): (r: Result<map<string, string>>)
    ensures r.Ok? <==> forall e :: e in Entries(filtered) ==> EntryStack(sport, df, e).Ok?
    ensures r.Ok? ==> r.value.Keys == Entries(filtered)
    ensures r.Ok? ==> forall e :: e in r.value ==> Ok(r.value[e]) == EntryStack(sport, df, e)
    ensures r.Err? ==> r.error == MissingIndex
  {
    if exists e :: e in Entries(filtered) && EntryStack(sport, df, e).Err? then Err(MissingIndex)
    else
      var m := map e | e in Entries(filtered) :: EntryStack(sport, df, e).value;
      assert m.Keys == Entries(filtered);
      Ok(m)
  }

  /** Which rows of a draft the filters kept does not matter, only which drafts. */
  lemma BreakdownSeesOnlyDrafts(sport: Sport, df: seq<Pick>, f1: seq<Pick>, f2: seq<Pick>)
    requires Entries(f1) == Entries(f2)
    ensures StackBreakdown(sport, df, f1) == StackBreakdown(sport, df, f2)
  {
  }

  /** NBA labels never raise when every filtered draft has a full six-pick roster
      in the sanitised table. */
  lemma NbaBreakdownSucceeds(df: seq<Pick>, filtered: seq<Pick>)
    requires forall e :: e in Entries(filtered) ==> |EntryRows(df, e)| == RosterSize
    ensures StackBreakdown(NBA, df, filtered).Ok?
  {
    forall e | e in Entries(filtered)
      ensures EntryStack(NBA, df, e).Ok?
    {
      Nba.SixPickEntries(TeamsOf(EntryRows(df, e)));
    }
  }

  /** Everything the dashboard displays for one upload and one set of choices. The
      metrics and the exposure table are drawn before the stack breakdown is
      computed, so a failing breakdown only replaces the breakdown. */
  datatype View = View(
    sport: Sport,
    totalDrafts: nat,
    firstPicks: map<string, int>,
    exposures: seq<Row>,
    stacks: Result<map<string, string>>
  )

  /** What is drawn for a non-empty filtered table: the draft count, first picks
      and exposures of the filtered rows and the stack labels read from the
      sanitised table `df`. */
  function Screen(sport: Sport, df: seq<Pick>, filtered: seq<Pick>, draft: string): (v: View)
    requires filtered != []
    ensures v.totalDrafts > 0
    ensures v.stacks.Err? ==> v.stacks.error == MissingIndex
    ensures sport == NFL ==> v.stacks.Ok?
    ensures v == View(sport, TotalDrafts(filtered), DraftPositions(filtered), ExposureTable(filtered, draft),
                      StackBreakdown(sport, df, filtered))
  {
    var firstPicks := DraftPositions(filtered);
    var stacks := StackBreakdown(sport, df, filtered);
    assert filtered[0].entry in firstPicks.Keys;
    assert sport == NFL ==> stacks.Ok?;
    View(sport, TotalDrafts(filtered), firstPicks, ExposureTable(filtered, draft), stacks)
  }

  /** The displays for the rows the player search kept: apply the four boxes, then
      draw the screen for what is left. When the boxes leave no row, rounding the
      average first pick raises before anything is drawn, and the run ends in the
      error message alone. */
  function Display(sport: Sport, df: seq<Pick>, base: seq<Pick>, s: Selection): (r: Result<View>)
    ensures r.Err? <==> Cascade(base, s) == []
    ensures r.Err? ==> r.error == NoDraftsLeft
    ensures r.Ok? ==> var v := r.value;
      && v.sport == sport && v.totalDrafts > 0
      && v.firstPicks.Keys == Entries(Cascade(base, s)) && v.totalDrafts == |v.firstPicks.Keys|
      && (s.draft == All ==> |v.exposures| == |Keys(Cascade(base, s))|)
      && (s.draft != All ==> |v.exposures| == |Cascade(base, s)|)
      && (v.stacks.Ok? ==> v.stacks.value.Keys == v.firstPicks.Keys)
      && (sport == NFL ==> v.stacks.Ok?)
      && (v.stacks.Err? ==> v.stacks.error == MissingIndex)
    ensures r.Ok? ==> var v := r.value;
      && v.firstPicks == DraftPositions(Cascade(base, s))
      && v.exposures == ExposureTable(Cascade(base, s), s.draft)
      && v.stacks == StackBreakdown(sport, df, Cascade(base, s))
  {
    var filtered := Cascade(base, s);
    if filtered == [] then Err(NoDraftsLeft) else Ok(Screen(sport, df, filtered, s.draft))
  }

  /** The rows the boxes leave in the run as written. */
  function Shown(raw: seq<Pick>, selected: seq<string>, s: Selection): seq<Pick>
  {
    Cascade(PlayerFilter(Sanitized(raw), selected), s)
  }

  /** The whole run as the script performs it: detect the sport on the raw rows
      (stop if none fits), drop incomplete pools, search players, then display.
      A search that no draft satisfies does not stop the run with its warning. */
  function Run(raw: seq<Pick>, selected: seq<string>, s: Selection): (r: Result<View>)
    ensures r.Err? <==> DetectRows(raw).Err? || Shown(raw, selected, s) == []
    ensures DetectRows(raw).Err? ==> r == Err(InvalidPositionData)
    ensures DetectRows(raw).Ok? && r.Err? ==> r.error == NoDraftsLeft
    ensures r.Ok? ==> r.value.sport == DetectRows(raw).value
    ensures r.Ok? ==> r.value.firstPicks.Keys == Entries(Shown(raw, selected, s))
    ensures r.Ok? ==> r.value.totalDrafts == |r.value.firstPicks.Keys|
    ensures r.Ok? && r.value.stacks.Ok? ==> r.value.stacks.value.Keys == r.value.firstPicks.Keys
    ensures r.Ok? ==> var v := r.value;
      && v.firstPicks == DraftPositions(Shown(raw, selected, s))
      && v.exposures == ExposureTable(Shown(raw, selected, s), s.draft)
      && v.stacks == StackBreakdown(v.sport, Sanitized(raw), Shown(raw, selected, s))
  {
    match DetectRows(raw)
    case Err(err) => Err(err)
    case Ok(sport) =>
      var df := Sanitized(raw);
      Display(sport, df, PlayerFilter(df, selected), s)
  }

  /** The run with the corrected player search: a selection that no draft satisfies
      stops with the no-common-draft warning; otherwise it does what `Run` does. */
  function RunCorrected(raw: seq<Pick>, selected: seq<string>, s: Selection): (r: Result<View>)
    ensures r.Err? <==> DetectRows(raw).Err? || Shown(raw, selected, s) == []
    ensures DetectRows(raw).Err? ==> r == Err(InvalidPositionData)
    ensures DetectRows(raw).Ok? && |selected| > 0 && PlayerFilter(Sanitized(raw), selected) == [] ==>
      r == Err(NoCommonDraft)
    ensures r.Ok? ==> Run(raw, selected, s) == r
  {
    match DetectRows(raw)
    case Err(err) => Err(err)
    case Ok(sport) =>
      var df := Sanitized(raw);
      match PlayerSearch(df, selected)
      case Err(err) => Err(err)
      case Ok(base) => Display(sport, df, base, s)
  }

  /** As written, a detected NFL run shows every display, stack labels included,
      exactly when the boxes leave some row; otherwise it shows only the error
      message for the empty table. */
  lemma NflRunShowsEverything(raw: seq<Pick>, selected: seq<string>, s: Selection)
    requires DetectRows(raw) == Ok(NFL)
    ensures Run(raw, selected, s).Ok? <==> Shown(raw, selected, s) != []
    ensures Run(raw, selected, s).Ok? ==> Run(raw, selected, s).value.stacks.Ok?
    ensures Run(raw, selected, s).Err? ==> Run(raw, selected, s) == Err(NoDraftsLeft)
  {
  }

  /** With the corrected search, once the sport is detected the run stops in one
      of two ways: the no-common-draft warning, exactly when players are selected
      and no draft holds them all, or the empty-table error, when a satisfiable
      search is emptied by the boxes. */
  lemma CorrectedRunStops(raw: seq<Pick>, selected: seq<string>, s: Selection)
    requires DetectRows(raw).Ok?
    ensures RunCorrected(raw, selected, s) == Err(NoCommonDraft) <==>
      |selected| > 0 && PlayerFilter(Sanitized(raw), selected) == []
    ensures RunCorrected(raw, selected, s) == Err(NoDraftsLeft) <==>
      Shown(raw, selected, s) == [] && !(|selected| > 0 && PlayerFilter(Sanitized(raw), selected) == [])
  {
  }

  /** As written, a player search that no draft satisfies never reaches its
      warning: the boxes see an empty table and the run ends in the generic error
      message for it. The corrected run stops with the warning instead. */
  lemma UnsatisfiedSearchShowsGenericError(raw: seq<Pick>, selected: seq<string>, s: Selection)
    requires DetectRows(raw).Ok?
    requires |selected| > 0 && PlayerFilter(Sanitized(raw), selected) == []
    ensures Run(raw, selected, s) == Err(NoDraftsLeft)
    ensures RunCorrected(raw, selected, s) == Err(NoCommonDraft)
  {
  }

  /** An upload in which no pool is complete leaves nothing after sanitising, so
      whatever is selected the run ends in the empty-table error. */
  lemma NoCompletePoolEndsInError(raw: seq<Pick>, selected: seq<string>, s: Selection)
    requires DetectRows(raw).Ok?
    requires forall p :: p in raw ==> PoolSize(raw, p.pool) % RosterSize != 0
    ensures Run(raw, selected, s) == Err(NoDraftsLeft)
  {
    FilterNone(raw, InCompletePool(raw));
  }

  /** In a shown run the stack labels are read from all sanitised rows of each
      shown draft, however few of its rows the search and the boxes kept: the
      breakdown succeeds iff every shown draft's label does, and then labels
      every shown draft and nothing else. */
  lemma RunLabelsFromSanitizedRows(raw: seq<Pick>, selected: seq<string>, s: Selection)
    requires DetectRows(raw).Ok? && Shown(raw, selected, s) != []
    ensures var v := Run(raw, selected, s).value;
      v.stacks.Ok? <==> forall e :: e in Entries(Shown(raw, selected, s)) ==> EntryStack(v.sport, Sanitized(raw), e).Ok?
    ensures var v := Run(raw, selected, s).value;
      v.stacks.Ok? ==> (v.stacks.value.Keys == Entries(Shown(raw, selected, s)) &&
        forall e :: e in v.stacks.value ==> Ok(v.stacks.value[e]) == EntryStack(v.sport, Sanitized(raw), e))
  {
    var df, filtered := Sanitized(raw), Shown(raw, selected, s);
    var sport := DetectRows(raw).value;
    assert Run(raw, selected, s) == Display(sport, df, PlayerFilter(df, selected), s);
    var b := StackBreakdown(sport, df, filtered);
    assert Run(raw, selected, s).value.stacks == b;
  }
}

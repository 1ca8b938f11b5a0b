# Draft exposures dashboard: the processing core in Dafny

`exposures.py` is a one-file Streamlit dashboard. Users upload the CSV export of
their completed best-ball drafts. The dashboard then shows:

- how often each player was drafted (the player's *exposure*);
- how many drafts and entry fees that represents;
- a label for how each draft *stacks* players of one team.

This project models the pure part of that script:

- **Sport.** The sport is detected from the set of position codes. NFL is checked first, then NBA; anything else stops with "Invalid position data".
- **Sanitising.** Draft pools whose row count is not a multiple of six are dropped whole.
- **NFL classifiers.** The build label comes from the per-position counts. The quarterback stack label comes from the picks on the quarterback's team.
- **NBA classifiers.**
  - The per-position count table.
  - The stack label. It is read from the entry's picks-per-team counts, largest first.
- **Player search.** It keeps every draft holding all selected players, comparing names with surrounding whitespace stripped.
- **Select boxes.** Four boxes (draft pool title, position, team, draft entry) are applied in that order. "All" means no restriction. Each box offers "All" plus the sorted distinct values left by the boxes before it.
- **Metrics.** The number of drafts, and each draft's first pick number.
- **Exposure table.**
  - When one draft is chosen, every pick is its own line at 100%.
  - Otherwise there is one line per (player, position, team). Each line holds the count, the fee total and count·100 / number of drafts, largest first.
- **Stack breakdown.** One label per surviving draft, computed on all of that draft's sanitised rows.

Modules:

- `Seqs`: generic filters, counts, sums, insertion sort and string order.
- `Picks`: the pick record, `str.strip`, the columns.
- `SportDetect`, `Sanitize`, `Nfl`, `Nba`, `Filters`, `Exposure`.
- `Dashboard`: the whole run, from raw rows to what is displayed.

Some conventions of the model:

- The uploaded table is a `seq<Pick>`.
- Exposure percentages are exact fractions (`Percent(num, den)`).
- Errors the script raises or reports are `Result` values.

Points where the script is narrower than one might expect:

- The script has no NHL mode and raises no error for a missing player name; neither is modelled.
- Both `analyze_team_composition` functions are defined but never called by the script. They are modelled on their own (`Nfl.ClassifyBuild`, `Nba.CountTable`).

## Model

| member | source | states |
|---|---|---|
| SportDetect.Detect | exposures.py:40-44 | A position set gives NFL iff it lies within QB/RB/WR/TE; NBA iff it has a non-NFL code and lies within PG/SG/SF/PF/C; otherwise the invalid-position error |
| SportDetect.DetectRows | exposures.py:40-42 | On a table: an error iff some row is not an NFL position and some row is not an NBA position; NFL iff every row's position is an NFL position |
| SportDetect.EmptyFileIsNfl | exposures.py:42-44 | Because NFL is checked first, an empty position set is NFL |
| SportDetect.DetectionOrderOnlyMattersWhenEmpty | exposures.py:78-80 | No non-empty position set passes both subset tests, so the test order only decides the empty file |
| SportDetect.MixedFileIsRejected | exposures.py:113-115 | A file holding an NFL code and an NBA code stops with the invalid-position error |
| Picks.PlayerNameIsStripped | exposures.py:119 | A name built from a first name that starts with a non-space and a last name that ends with one is already stripped, so the search's `strip` leaves it unchanged |
| Picks.TrimStartSpec | exposures.py:141 | Trimming the front removes exactly the longest whitespace prefix |
| Picks.TrimEndSpec | exposures.py:141 | Trimming the back removes exactly the longest whitespace suffix |
| Picks.StripSpec | exposures.py:141 | `str.strip`: the result is a slice of the input with only whitespace around it and no whitespace at either end |
| Picks.StripIdempotent | exposures.py:141 | Stripping a stripped name changes nothing |
| Picks.StripTrimmed | exposures.py:141 | A name without surrounding whitespace strips to itself |
| Picks.EntryRows | exposures.py:366-367 | The rows of one draft entry are exactly the rows with that entry, and there are some iff the entry occurs |
| Sanitize.Sanitized | exposures.py:122-124 | A row is kept iff its pool's row count is a multiple of six |
| Sanitize.WholePoolsOnly | exposures.py:122-124 | A pool keeps all its rows when its count is a multiple of six and none otherwise, never a part |
| Sanitize.SanitizedPoolsComplete | exposures.py:123-124 | After sanitising, every pool's row count is a multiple of six |
| Sanitize.SanitizedIdempotent | exposures.py:122-124 | Sanitising twice is sanitising once |
| Sanitize.CountPools | exposures.py:122 | The loop's per-pool tallies equal the number of rows of each pool, and every row's pool is tallied |
| Sanitize.SanitizedComplete | exposures.py:123-124 | Every pool of the sanitised table, whichever pool is asked about, has a row count divisible by six |
| Sanitize.SanitizeRows | exposures.py:122-124 | The two-pass loop computes the sanitised table, whose pools all have counts divisible by six |
| Nfl.ClassifyBuild | exposures.py:46-56 | Invalid iff the QB count is not 1; each build label holds exactly under its own count pattern, made disjoint by the rule order; missing positions count 0 |
| Nfl.BuildIgnoresOtherPositions | exposures.py:46-56 | Adding a pick at a position other than QB, RB, WR or TE never changes the build |
| Nfl.TwoTeRosterShape | exposures.py:53-54 | On a six-pick NFL roster labelled 2 TE, exactly three picks are running backs or receivers |
| Nfl.ClassifyStack | exposures.py:58-76 | Invalid iff the entry does not have exactly one QB row; otherwise the label ranks min(k, 3) for k the non-QB picks on the QB's team |
| Nfl.StackOfSize | exposures.py:68-76 | 0, 1, 2 and 3-or-more stacked partners give Naked QB, Skinny, Double and Triple+ |
| Nfl.StackIgnoresOtherTeams | exposures.py:63-66 | Moving a non-QB pick between teams other than the QB's never changes the label |
| Nfl.StackIgnoresRowOrder | exposures.py:58-76 | The label depends on the entry's picks, not on their row order |
| Nba.CountTable | exposures.py:82-88 | Every NBA position maps to its number of picks; a position outside the NBA list raises the missing-key error |
| Nba.CountTableTotal | exposures.py:82-88 | The five slots of the table add up to the number of picks |
| Nba.TeamCounts | exposures.py:92 | The picks-per-team counts are largest first, one per distinct team, positive, add up to the number of picks, and are the team multiplicities in some order |
| Nba.StackOfCounts | exposures.py:94-112 | The decision table on sorted counts: 6 Unique iff there are six counts; it raises, with the missing-index error, exactly on the counts [], [2], [3] and [2, 2], where a branch reads a count that does not exist |
| Nba.ClassifyStack | exposures.py:90-112 | The label of an entry is 6 Unique iff its picks come from six distinct teams; any failure is the missing-index error |
| Nba.StackIgnoresTeamNames | exposures.py:90-112 | Permuting the picks and renaming teams one-to-one changes neither the sorted counts nor the label |
| Nba.PartitionsTopThree | exposures.py:96-101 | Largest-first positive counts adding up to six with top count 3 are 3-3, 3-2-1 or 3-1-1-1 |
| Nba.PartitionsTopTwo | exposures.py:102-110 | Largest-first positive counts adding up to six with top count 2 are 2-2-2, 2-2-1-1 or 2-1-1-1-1 |
| Nba.SixPickCounts | exposures.py:94-112 | On counts of a six-pick entry the table never raises; a top count of 4 or more gives Other; else every label but 6 Unique spells the counts joined by '-' |
| Nba.SixPickEntries | exposures.py:90-112 | A six-pick entry never raises; four or more picks of one team give Other; otherwise the label text is its sorted team counts joined by '-' unless all six teams differ |
| Filters.PlayerFilter | exposures.py:138-150 | A row is kept iff its entry has, for every selected name, a pick whose stripped name equals the stripped selection; no selection keeps every row |
| Filters.DraftsWith | exposures.py:141 | The drafts of a player are exactly the entries holding a pick with that stripped name |
| Filters.PlayerSearchAsWritten | exposures.py:138-153 | The search as written, branching on whether the mask was set: it computes the player filter and never shows the "no drafts found" warning, whatever the rows and selection |
| Filters.DraftMask | exposures.py:139-145 | The mask is set iff the selection is non-empty, and then marks exactly the rows whose entry holds every selected player |
| Filters.MaskUpToMeaning | exposures.py:140-145 | After k rounds of the loop the mask marks exactly the rows whose entry holds the first k selected players |
| Filters.NoWarningForDisjointPlayers | exposures.py:122-153 | Two complete six-pick pools in different entries, where neither player appears in the other's entry, survive sanitising unchanged, and selecting both players leaves no row |
| Filters.TwoFullPools | exposures.py:122-124 | Two pools of six rows each are left whole by sanitising |
| Filters.PlayerSearch | exposures.py:138-153 | Corrected search: it stops with the no-common-draft warning iff players are selected and no row survives, else returns the filtered, non-empty table |
| Filters.PlayerFilterKeepsWholeEntries | exposures.py:144-150 | Every draft entry survives the search with all its rows or not at all |
| Filters.PlayerFilterSelectionOrder | exposures.py:140-145 | Only the set of selected names matters, not their order or repetition |
| Filters.PlayerFilterNarrows | exposures.py:140-145 | Selecting more players narrows the result: searching a+b is searching a, then keeping drafts that hold b |
| Filters.PlayerFilterIgnoresPadding | exposures.py:141 | Surrounding whitespace in a selected name changes nothing |
| Filters.Narrow | exposures.py:170-171 | A box keeps the rows whose column equals its choice; "All" is the identity |
| Filters.Options | exposures.py:162-163 | A box offers "All" followed by the column's distinct values in strictly ascending order, exactly the values present |
| Filters.OptionsAreUnique | exposures.py:162-163 | Any list that starts with "All" and then holds exactly the column's values in strictly ascending order is the box's option list: the options are determined by the values present |
| Filters.OfferedChoiceKeepsRows | exposures.py:174-182 | Choosing an offered option on a non-empty table leaves at least one row |
| Filters.NarrowCommutes | exposures.py:156-207 | Two boxes give the same rows in either order |
| Filters.CascadeIsConjunction | exposures.py:156-207 | The four boxes in sequence keep exactly the rows matching every non-"All" choice, in table order |
| Filters.OfferedSelectionKeepsRows | exposures.py:161-207 | When every box's choice is offered on the table the previous boxes leave, a non-empty table stays non-empty |
| Exposure.GroupedTable | exposures.py:248-263 | One line per distinct (player, position, team), every key present, none twice; each line holds its key's count, fee total and count·100/drafts; counts non-increasing; empty iff no rows |
| Exposure.ExposureTable | exposures.py:235-263 | With a draft chosen, line i is pick i's name, position and team with 1 draft, the pick's fee and 100%; with "All" it is the grouped table, one line per distinct key |
| Exposure.DraftsAddUp | exposures.py:249-253 | The counts of the grouped table add up to the number of filtered picks |
| Exposure.ExposureAtMost100 | exposures.py:262 | When no draft holds a key twice, no exposure exceeds 100% |
| Exposure.ExposureNonIncreasing | exposures.py:262-263 | All lines share one denominator, the number of drafts, and their numerators never increase down the table, so the table is ordered by exposure, largest first |
| Exposure.ExposureDefined | exposures.py:262 | Every exposure's denominator, the number of drafts, is positive |
| Exposure.SingleDraftAgreesWithGrouped | exposures.py:235-259 | On one draft in which no key repeats, the per-pick table (1 draft, own fee, 100%) has the same lines as the grouped table |
| Exposure.DraftChoiceLeavesOneDraft | exposures.py:198-207 | Choosing a draft in the last box leaves at most that draft, so the draft count is at most 1 |
| Exposure.DistinctKeys | exposures.py:249 | The group keys are the keys present in the rows, without repeats |
| Exposure.MinPick | exposures.py:214-215 | The minimum pick number is one of the group's pick numbers and at most each of them |
| Exposure.DraftPositions | exposures.py:213-218 | Each filtered draft, and no other, maps to the smallest pick number among its rows |
| Dashboard.EntryStack | exposures.py:365-368 | NFL labels never fail; an NBA label fails only with the missing-index error |
| Dashboard.StackBreakdown | exposures.py:362-369 | The breakdown succeeds iff every filtered draft's label does; it labels exactly the filtered drafts, each from all its sanitised rows |
| Dashboard.BreakdownSeesOnlyDrafts | exposures.py:362-369 | Two filter results with the same drafts give the same breakdown, whichever rows of those drafts survived |
| Dashboard.NbaBreakdownSucceeds | exposures.py:362-369 | When every filtered NBA draft has six sanitised rows, no label raises |
| Dashboard.Display | exposures.py:155-400 | When the boxes leave no row, rounding the average first pick raises and only the empty-table error is shown. Otherwise the view carries the sport and a positive draft count equal to the number of drafts left; its first picks are the least pick of each of those drafts, its exposure lines are the exposure table of the remaining rows, and its stack map is the breakdown over the same drafts, so it is replaced alone by the missing-index error exactly when an NBA label raises (never for NFL) |
| Dashboard.Run | exposures.py:40-400 | The run as written stops iff detection fails (invalid-position error) or the search and boxes leave no row (empty-table error). Otherwise it shows the detected sport, the draft count, first picks and exposure table of exactly the rows left, and the stack breakdown of those drafts read from the sanitised table |
| Dashboard.RunCorrected | exposures.py:40-400 | With the corrected search the run stops in the same cases, but a selection no draft satisfies now stops with the no-common-draft warning; whenever it shows a view, it is the view the run as written shows |
| Dashboard.NflRunShowsEverything | exposures.py:58-76 | As written, a detected NFL run shows every display, stack labels included, iff the boxes leave some row; otherwise it ends in the empty-table error |
| Dashboard.CorrectedRunStops | exposures.py:148-221 | Once the sport is detected, the corrected run stops with the no-common-draft warning iff players are selected and no draft holds them all, and with the empty-table error iff the search is satisfiable but the boxes leave no row |
| Dashboard.UnsatisfiedSearchShowsGenericError | exposures.py:148-221 | As written, a selection no draft satisfies never reaches its warning: the run ends in the generic error message raised at line 221; the corrected run stops with the warning |
| Dashboard.NoCompletePoolEndsInError | exposures.py:122-221 | An upload whose pools are all incomplete is emptied by sanitising, so whatever is selected the run ends in the empty-table error raised at line 221 |
| Dashboard.RunLabelsFromSanitizedRows | exposures.py:362-369 | In a shown run each shown draft's stack label is computed on all its sanitised rows, not only those the search and boxes kept; the breakdown succeeds iff every such label does, and then labels exactly the shown drafts |

## Left out

- The Streamlit page, widgets and layout are not modelled. The choices of the player search and the four boxes are inputs.
- The list of player names offered for search is not modelled (line 127). Any names may be selected.
- Reading the CSV with pandas is not modelled. The table is a sequence of `Pick` records whose fields are always present; missing values (NaN) are not modelled.
- The pick timestamp and the time-of-day chart are not modelled: they depend on datetime parsing.
- The pie charts and their percentages are not modelled. This covers the position/team distribution and the stack distribution, which are float rounding feeding a plot.
- The value of the average draft position is not modelled, nor `.round(1)` on exposure: both are floating point. What is modelled is that the average fails on an empty table (line 221): pandas' mean of no values is a plain float NaN, which has no `round` method, so the run ends in the generic error message before any metric is drawn. Exposure is kept as an exact fraction. Rounding is monotone, so the largest-first order by count is also an order by rounded exposure.
- Exposure.GroupedTable: pandas groups keys in sorted order and then sorts with an unstable sort, so lines with equal rounded exposure may appear in any order (with more than a thousand drafts, different counts can round to the same exposure). The model lists keys by first appearance and sorts stably, which is one of the admissible orders; the contract promises only that counts are non-increasing.
- Entry fees and pick numbers are whole numbers in the model.
- The catch-all `except` (lines 396-400) turns an error into a message; the model carries which error (`Error`), not the message text. For an error raised while labelling stacks, the metrics and the exposure table are already on the page, so `View.stacks` holds the error in place of the breakdown alone. The second, duplicated clause is dead code.
- `Nba.CountTable` and `Nfl.ClassifyBuild` are not wired into `Dashboard.Run`, because the script never calls them.

## Findings

| source | as written | input that shows it | evidently intended | confidence | as-written member | corrected member |
|---|---|---|---|---|---|---|
| exposures.py:148-153 | The "No drafts found containing all selected players" warning runs only when `draft_mask is None`. Inside `if player_search:` the loop always sets the mask, so the warning is dead code. | Two complete pools of six picks in two entries, e.g. one holding Ja Morant and the other Jalen Brunson, with both players selected. The boxes then see an empty table, and the run ends in the generic "Error processing file" message raised at line 221, never in the dedicated warning. | Warn and stop when no draft holds all selected players | medium, not executed | Filters.PlayerSearchAsWritten, Filters.NoWarningForDisjointPlayers, Dashboard.UnsatisfiedSearchShowsGenericError | Filters.PlayerSearch, Dashboard.RunCorrected |

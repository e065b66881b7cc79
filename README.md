# Football-statistics pipeline in Dafny

The repository is five batch scripts run one after another over football
statistics tables (player performances, profiles, market values, injuries):

1. `main.py` keeps the performances of the five major leagues in five seasons.
2. `main2.py` joins every performance to its player's main position, keeps the
   four known positions and writes one file per position.
3. `main3.py` labels every market valuation with its July-to-June season,
   joins the valuations onto the defender performances by player and season,
   drops the rows without a value and keeps 22 output columns.
4. `main4.py` drops five columns, totals the injuries per player and season,
   attaches the totals and counts "no injury" as 0.
5. `main5.py` attaches every player's date of birth, computes the age in the
   year the season ends, drops the date of birth and puts `age` last.

Under the pandas plumbing each script is a deterministic transform of tables.
The model keeps the pandas view of a table: a header of column names and rows
of cells (`Frames.Table`, `Frames.Cell` = NaN, text, integer or timestamp), so
that column-level behaviour (a `KeyError` for an absent column, the dropped
columns, the output column order, `age` last) is stated and proved along with
the row-level behaviour.

- `frames.dfy` (module `Frames`): the DataFrame operations the scripts use:
  `df[mask]`, `df[cols]`, `drop(columns=…)`, `df[c] = col`, `fillna`,
  `dropna(subset=…)`, `rename`, `drop_duplicates` (first row kept), and a
  `Frame` class for the assignments the scripts make in place.
- `joins.dfy` (module `Joins`): `pd.merge(…, how='left')`, the inner join, and
  the fact that a left merge followed by `dropna` on a right-hand column is an
  inner join.
- `league_filter.dfy`, `position_split.dfy`, `market_value.dfy`,
  `injury_totals.dfy`, `player_age.dfy`: one module per script.

Errors are a `Result`: `MissingColumn(name)` for pandas' `KeyError`, `Other`
for any other exception. Foreign library calls are parameters:
`pd.to_datetime` on `date_unix` (main3.py) is `toDate: Cell -> Option<Date>`
(None = it raises), and the birth year of `pd.to_datetime(…, errors='coerce')`
(main5.py) is `birthYear: Cell -> Option<int>` (None = a value it coerces to
NaT); a NaN date of birth is NaT without consulting it.

Where the scripts' own comments and messages and their code differ, the model
follows the code:
- main2.py deduplicates whole `(player_id, main_position)` pairs, not player
  ids (main2.py:37-38 reports that count as the number of unique players), so a player listed with two positions keeps two profile rows and that
  player's performances are duplicated by the merge (`PositionSplit.TwoPositionsKept`).
- main3.py does not average valuations, although its comment at main3.py:45-46
  says the mean is taken: a season with several valuations gives several
  output rows (`MarketValue.InnerPairs`); the rename of `mean_market_value`
  at main3.py:61 matches nothing when the performances have no such column
  (`MarketValue.MergedLayout`).
- main5.py reads the segment after the first `/` with `int`, so a season
  written `2023/2024` ends in 2024 and `98/99` is read as 2099 (the comment
  at main5.py:28-30 assumes two-digit years are in the 2000s), and it takes
  every whole season string without `/` as a year.

## Model

| member | source | states |
|---|---|---|
| `Frames.FilterMember` | main.py:38 | an element is selected iff it is in the input and meets the mask |
| `Frames.FilterIsSubsequence` | main.py:38 | a boolean selection keeps rows in their relative order |
| `Frames.FilterSize` | main.py:44-45 | the selection has exactly as many rows as the mask has true entries |
| `Frames.FilterIdempotent` | main.py:31-38 | selecting with a mask twice equals selecting once |
| `Frames.IndexOf` | main.py:31 | a column name is found iff it is in the header, at its first position; otherwise the lookup is a KeyError |
| `Frames.Locate` | main2.py:37 | the positions of several columns, or a KeyError naming one of them that is absent |
| `Frames.Select` | main3.py:85 | `df[cols]` succeeds iff every column exists; the result has exactly those columns in that order and every cell reads the input cell of that column |
| `Frames.SelectCells` | main3.py:85 | after a selection of distinct names each selected column reads as before |
| `Frames.SelectAll` | main5.py:79-80 | selecting every column of a table in its own order gives the table back |
| `Frames.DropColumns` | main4.py:20 | `drop(columns=…)` fails with a KeyError iff a listed column is absent; otherwise the header is the old header without those names, in order, and the row count is kept |
| `Frames.DropColumnsCells` | main4.py:20 | after the drop, every column not dropped reads as before and the table stays well formed |
| `Frames.WithoutMembers` | main4.py:15-20 | a column survives the drop iff it was present and not listed |
| `Frames.WithoutDistinct` | main4.py:20 | dropping columns keeps column names distinct |
| `Frames.Column` | main5.py:62 | `df[c]` is a KeyError iff `c` is absent, otherwise one cell per row, the row's cell in `c` |
| `Frames.WithColumn` | main5.py:70 | `df[c] = col` replaces column `c` when it exists and appends it last otherwise; the row count is kept |
| `Frames.WithColumnCells` | main5.py:70 | after the assignment column `c` reads `col` and every other column reads as before |
| `Frames.Frame.Assign` | main3.py:41-42 | the in-place assignment leaves the frame equal to the table `WithColumn` specifies |
| `Frames.DropMissing` | main3.py:65 | `dropna(subset=[c])` is a KeyError iff `c` is absent; it keeps the header and never adds rows |
| `Frames.DropMissingMember` | main3.py:65 | a row is kept by `dropna` iff its cell in `c` is not NaN |
| `Frames.Rename` | main3.py:61 | `rename` changes only the names equal to the old name and no cell |
| `Frames.RenameAbsent` | main3.py:61 | renaming a column that does not exist leaves the table unchanged |
| `Frames.DedupFrom` | main5.py:51 | deduplication keeps an ordered subsequence of the rows, none with a key already seen |
| `Frames.DedupMatches` | main5.py:51 | after deduplication a key has at most one row, the first input row with that key |
| `Frames.DedupDistinct` | main2.py:37 | the keys kept by deduplication are pairwise distinct |
| `Frames.DedupKeepsKeys` | main2.py:37 | every key of the input is still present after deduplication |
| `Frames.FirstWith` | main5.py:51 | the first row with a key is absent iff no row has the key, and otherwise is a row with that key |
| `Joins.LeftMerge` | main2.py:43 | the left merge is a KeyError iff a key column is missing on either side; the header is the left columns then the right non-key columns; there are at least as many rows as left rows |
| `Joins.InnerJoin` | main3.py:53-65 | the inner merge succeeds iff the key columns exist on both sides |
| `Joins.JoinKeepsLeftRows` | main2.py:43 | a left join never has fewer rows than its left table |
| `Joins.UnmatchedRowIn` | main2.py:43 | a left row without a match appears in the join padded with NaN |
| `Joins.LookupJoin` | main4.py:37-42 | when every left row matches at most one right row, the join keeps the left rows one for one and in order and only appends the matched cells (NaN when none) |
| `Joins.InnerRowsPair` | main3.py:53-58 | every inner-join row is one left row followed by the cells of one right row with an equal key |
| `Joins.InnerJoinSize` | main3.py:53-58 | the inner join has one row per (left row, matching right row) pair |
| `Joins.LeftJoinSize` | main3.py:53-71 | the left join has the inner join's rows plus one per unmatched left row |
| `Joins.LeftMinusInner` | main3.py:64-71 | the left merge minus the inner merge counts the left rows with no match |
| `Joins.DropMissingIsInner` | main3.py:53-65 | dropping joined rows without the right-hand cell leaves the inner join with the right rows that have it |
| `Joins.MergeThenDropMissing` | main3.py:53-65 | a left merge followed by `dropna` on a right-hand column equals the inner merge with the right rows that have that column |
| `Joins.MergedHeaderPlain` | main2.py:43 | without clashing names the merged header is the left header followed by the right non-key columns |
| `Joins.KeyAgree` | main3.py:56 | matching by key positions is matching by equal cells in the named key columns |
| `LeagueFilter.FilterLeagues` | main.py:31-38 | KeyError on the first missing of `competition_name`, `season_name`; otherwise the same columns and an order-preserving subsequence of the rows |
| `LeagueFilter.KeptIff` | main.py:31-38 | a row is kept iff its league is one of the five AND its season is one of the five |
| `LeagueFilter.OneConditionDropped` | main.py:36-38 | a row meeting only one of the two conditions is dropped |
| `LeagueFilter.KeptCount` | main.py:44-45 | the output has exactly as many rows as meet both conditions, at most the input's |
| `LeagueFilter.FilterLeaguesIdempotent` | main.py:31-38 | filtering the output again changes nothing |
| `PositionSplit.ProfilePairs` | main2.py:37 | KeyError naming a missing `player_id` or `main_position`; otherwise a two-column table of those names |
| `PositionSplit.ProfilePairsRows` | main2.py:37 | the projection holds every profile's pair, each once, and nothing else |
| `PositionSplit.TwoPositionsKept` | main2.py:37 | a player with two distinct positions keeps two profile rows |
| `PositionSplit.MergePositions` | main2.py:43 | the merge has at least as many rows as the performances and locates `main_position` |
| `PositionSplit.MergedPositionLast` | main2.py:43 | with `player_id` and no `main_position` in the performances the merge succeeds and appends `main_position` last |
| `PositionSplit.KeptIff` | main2.py:13-18 | a merged row survives iff its position is one of Attack/Defender/Midfield/Goalkeeper; a missing position never survives |
| `PositionSplit.UnmatchedDropped` | main2.py:43-49 | a performance without a profile gets a NaN position and is written to no file |
| `PositionSplit.GroupsOverSize` | main2.py:52 | the group sizes add up to the rows whose position is listed |
| `PositionSplit.GroupsOverDistinct` | main2.py:52 | no two groups share a position |
| `PositionSplit.GroupsPartition` | main2.py:52-61 | the groups partition the kept rows: every row of group p has position p, groups keep row order, every kept row is in its position's group, only occurring positions get a group, and the sizes sum to the kept count |
| `PositionSplit.WriteGroups` | main2.py:52-61 | one file per group named prefix + position + ".csv" holding the group's rows, and the running total is the sum of the group sizes |
| `PositionSplit.SplitByPosition` | main2.py:43-68 | the script fails iff the merge fails; otherwise the files are the groups, every kept row is written once and `missing_position_count` = merged rows − kept rows ≥ 0 |
| `MarketValue.SeasonLabelForm` | main3.py:19-28 | the label is the season start year's last two digits, "/", and the end year's last two digits |
| `MarketValue.LabelOfStart` | main3.py:19-28 | the two halves of the label of a season starting in a year of two or more digits are that year's and the next year's last two digits |
| `MarketValue.SeasonWindow` | main3.py:19-28 | every date from July of Y through June of Y+1 gets the label of July of Y |
| `MarketValue.SameLabelIff` | main3.py:10-28 | two dates share a label iff their seasons start in years with equal last two digits |
| `MarketValue.MillenniumSeason` | main3.py:19-28 | 1999-12 and 2000-01 both map to "99/00" |
| `MarketValue.ToDates` | main3.py:41 | `to_datetime` on the column succeeds iff it succeeds on every cell, and then gives each cell's date |
| `MarketValue.Tagged` | main3.py:41-42 | KeyError without `date_unix`, Other when a date fails to parse; otherwise the row count is kept |
| `MarketValue.TaggedCells` | main3.py:41-42 | every valuation carries the date parsed from `date_unix` and the season label of that date |
| `MarketValue.TagInPlace` | main3.py:41-42 | the in-place tagging leaves the frame as `Tagged` specifies, unchanged on an exception |
| `MarketValue.JoinValues` | main3.py:48-85 | the output has exactly the 22 listed columns and one row per kept row; `dropna` never adds rows; the merge keeps at least the performance rows |
| `MarketValue.MarketJoin` | main3.py:41-85 | the whole script gives the 22 output columns and a merge at least as long as the performances |
| `MarketValue.ValueColumn` | main3.py:77-85 | `value` is the last of the 22 output columns and appears only there |
| `MarketValue.OutputHasValues` | main3.py:94-96 | every output row has a value, so the warning count is always 0 |
| `MarketValue.MergedLayout` | main3.py:53-61 | the merge appends `value` and `date`, and the rename of `mean_market_value` leaves it unchanged |
| `MarketValue.InnerAfterDrop` | main3.py:53-65 | merge then `dropna` equals the inner join with the valuations that have a value |
| `MarketValue.InnerPairs` | main3.py:45-58 | each output row pairs one performance with one valued market row of the same player and season, and there are exactly as many rows as such pairs (no averaging) |
| `MarketValue.DroppedAreUnmatched` | main3.py:53-71 | when every valuation has a value, rows before minus rows after the drop equals the number of performances with no valuation |
| `InjuryTotals.Aggregate` | main4.py:28-31 | the aggregate succeeds iff every day and game count is a number or NaN; it has the four columns and at most as many rows as injuries |
| `InjuryTotals.AggregateRows` | main4.py:31 | one aggregate row per distinct complete (player, season) key, each the key followed by the two sums over that key's injury rows |
| `InjuryTotals.AggregateLookup` | main4.py:31 | a key has one aggregate row when some injury has it and it is complete, none otherwise |
| `InjuryTotals.TotalIsInjurySum` | main4.py:28-31 | the group total over the selected columns equals the reference sum over the injury table |
| `InjuryTotals.Merged` | main4.py:15-42 | the merge keeps at least the base rows |
| `InjuryTotals.BaseTable` | main4.py:15-20 | the base table is the input minus exactly the five listed columns, with the row count kept |
| `InjuryTotals.MergeOnKeys` | main4.py:37-42 | the aggregate keys are unique, so the merge keeps the base rows one for one and in order and appends the key's totals or NaN |
| `InjuryTotals.MergedRows` | main4.py:15-42 | the merge's header is the kept columns then the two totals; each row is the base row and its key's totals |
| `InjuryTotals.ZeroFill` | main4.py:46-47 | `fillna(0)` is a KeyError iff the column is absent and otherwise keeps header and row count |
| `InjuryTotals.ZeroFillCells` | main4.py:46-47 | after the fill the column has no NaN, its numbers are kept, and no other column changes |
| `InjuryTotals.FillInPlace` | main4.py:46-47 | the in-place fills leave the frame as `Filled` specifies, keeping the first fill when the second fails |
| `InjuryTotals.FilledRows` | main4.py:46-47 | both fills replace NaN by 0 in the two total cells and change nothing else |
| `InjuryTotals.FinalRows` | main4.py:15-47 | one output row per performance, in order: the kept cells, then the injury totals for that player and season, 0 when there are none |
| `InjuryTotals.FinalCells` | main4.py:37-47 | no kept column of a performance changes, and the two new columns read the reference totals |
| `PlayerAge.SplitParts` | main5.py:26 | a string with '/' is its first segment, '/', and the rest |
| `PlayerAge.SplitAt` | main5.py:26 | splitting `a/t` at its first '/' gives `a` and `t` back |
| `PlayerAge.ShortEndYear` | main5.py:24-33 | a two-digit second segment v gives 2000 + v |
| `PlayerAge.LongEndYear` | main5.py:31-34 | a second segment of 100 or more is returned unchanged |
| `PlayerAge.ThirdPartIgnored` | main5.py:26 | only the segment between the first and second '/' matters |
| `PlayerAge.ParsePyStr` | main5.py:37-38 | `int(str(n))` is n |
| `PlayerAge.NumEndYear` | main5.py:37-38 | a season given as a number is its own end year |
| `PlayerAge.ShortLabelExample` | main5.py:24-33 | "23/24" gives 2024 |
| `PlayerAge.NinetiesExample` | main5.py:28-33 | "98/99" gives 2099 |
| `PlayerAge.LongLabelExample` | main5.py:34 | "2023/2024" gives 2024 |
| `PlayerAge.OddLabelExamples` | main5.py:37-41 | "23/" gives missing rather than raising, "24" gives 24, "23/-5" gives 1995 |
| `PlayerAge.NaTLabelHasNoYear` | main5.py:40-41 | the label main3.py gives an unparsed date has no end year |
| `PlayerAge.SeasonLabelCentury` | main5.py:24-33 | read back, a label main3.py produced for a season starting in 1999-2098 ends the year after the start |
| `PlayerAge.SeasonLabelEndYear` | main5.py:24-33 | for any start year, the label's end year is the real end year moved into 2000-2099 |
| `PlayerAge.AgeExample` | main5.py:62-70 | "23/24" with birth year 2000 gives age 24; an unknown birth year or a NaN date of birth gives an unknown age, not 0 |
| `PlayerAge.NoProfileNoDob` | main5.py:51-55 | a player with no profile row gets no date of birth from the left merge |
| `PlayerAge.BirthDates` | main5.py:51 | KeyError naming a missing `player_id` or `date_of_birth`; otherwise the two columns |
| `PlayerAge.BirthLookup` | main5.py:51-55 | each player has at most one birth row, and the merge gives the first profile row's date of birth |
| `PlayerAge.MergedDob` | main5.py:55 | the merge keeps the main rows one for one and in order and appends each player's first date of birth |
| `PlayerAge.WithAge` | main5.py:62-70 | the age column is a KeyError naming `season_name` first, then `date_of_birth`, and succeeds iff both exist |
| `PlayerAge.AgeInPlace` | main5.py:70 | the in-place assignment leaves the frame as `WithAge` specifies, unchanged on an error |
| `PlayerAge.DroppedRows` | main5.py:74 | dropping `date_of_birth` leaves the main columns and `age`, cell for cell |
| `PlayerAge.AgeLastColumns` | main5.py:79 | `age` is last and only last, no other column is gained or lost, distinct names stay distinct |
| `PlayerAge.AgeAlreadyLast` | main5.py:79-80 | moving `age` last when it already is last changes nothing |
| `PlayerAge.AgeRows` | main5.py:51-80 | the output has the main columns then `age`, one row per main row in order, each the main row plus end year minus birth year of the player's first profile row, NaN when either is unknown; a player without a profile row gets a NaN age |

## Left out

- Reading and writing CSV files, the UTF-8 byte-order mark, `FileNotFoundError` and every `print` are I/O and are not modelled; a script's outcome is its `Result`.
- `pd.to_datetime` is a parameter (`toDate` in main3.py, `birthYear` in main5.py); its parsing of Unix times and date strings is not modelled.
- Numbers are integers: pandas' float dtype, the float-typed age and the float sums of `groupby().sum()` are not modelled, and NaN is the `Missing` cell.
- `InjuryTotals.Aggregate`: a day or game count that is text makes the aggregate fail with `Other`; pandas may instead concatenate text for an object column.
- `InjuryTotals.Aggregate`: lists the aggregate rows in first-appearance order, not pandas' sorted key order; the merge result does not depend on that order because the keys are unique.
- `PositionSplit.Groups`: the group order is the sorted order of the four names; pandas' sort of other key types is not modelled.
- `PlayerAge.EndYearOf`: Python `int()` also accepts surrounding whitespace, underscores between digits and non-ASCII digits; here only an optional sign and ASCII digits parse, anything else is missing.
- `Joins.LeftMerge`: the `_x`/`_y` suffixes are modelled in the header only; merging on keys of different dtypes (pandas raises) is not modelled.
- `MarketValue.JoinValues`: performances that already carry a `mean_market_value` column are not modelled; pandas renames it to a second `value` column, `dropna` then tests both and the output has 23 columns, while the model's lookups read only the first column of a name.
- `MarketValue.MarketJoin`: the same case, through `JoinValues`: the 22-column output is promised only for performances without a `mean_market_value` column in pandas.
- The top-level `except Exception` of each script is the `Other` error; the message texts are not modelled.

# Premier League player statistics: extraction, merge and output schema

This project models the data pipeline of `SourceCode/b1.py` in Dafny and
proves properties of it. The script fetches one statistics page per
category (standard, keepers, shooting, passing, passing types, goal and
shot creation, defense, possession, miscellaneous). From each page it takes
the table of players and turns every data row into a record keyed by the
cells' `data-stat` fields. It merges the category tables into one record
per player, keyed by the `standard` table. It then keeps one row per player
(the row with the most minutes), renames the fields to their display names
and cleans up nationality and age. Players with 90 minutes or fewer are
dropped, and the rows are ordered by first name. Last, it lays the result
out in a fixed list of output columns, where `N/a` marks every missing or
blank value.

The model is split into modules that follow the script's stages:

- `Frames` (`frames.dfy`): tables as a column list plus row maps. A missing value (pandas' NaN) is an absent key.
- `Extract` (`extract.dfy`): the table extractor, as a method with its row and cell loops, proved against a specification function.
- `ColumnMap` (`column_map.dfy`): the field dictionary, all 75 entries in declaration order.
- `ColumnNames` (`column_names.dfy`): the proof that the 75 display names are pairwise distinct, by a sorted copy and a permutation between the two orders.
- `Merge` (`merge.dfy`): the column selection loop, the left join with its `_<category>_dup` suffix, and the merge loop.
- `Numbers` (`numbers.dfy`): how minutes are read: commas removed, then parsed as a whole number.
- `Dedup` (`dedup.dfy`): the sort and `drop_duplicates` by player.
- `Normalize` (`normalize.dfy`): renaming, nationality code, age, the minutes filter and the first-name sort.
- `Output` (`output.dfy`): the output column order loop and the column-building loop with the `N/a` sentinel.
- `Pipeline` (`pipeline.dfy`): the page loop, the checks on the `standard` table, and the whole run.
- `Sorting`, `Text`, `Wrappers`: generic sorting, keep-first and filtering, Python string order and white space, `Option`/`Result`.

Three checks in the script never change the outcome, and the model leaves
them out:

- The check at b1.py:156 skips a secondary table when `unique_cols_to_bring`
  is empty or lacks `player`. That list is built starting from `player`
  (b1.py:150), so the check never fires: a table with no column besides
  `player` and the identity fields is still joined and contributes only its
  player key. `Merge.MergeStep` has no such skip.
- The check that the `standard` table has a `player` column (b1.py:138-140)
  cannot fail. Extraction keeps only rows with a non-empty player
  (`Extract.NonEmptyExtractionHasPlayer`), and `Pipeline.Run` asserts this
  instead of modelling an error.
- The second test in the nationality helper (b1.py:178) returns the text
  unchanged, which is what the fall-through at b1.py:179 does anyway.
  `Normalize.NationCode` therefore has one case fewer.

## Model

| member | source | states |
|---|---|---|
| Extract.ExtractTable | SourceCode/b1.py:58-86 | the row and cell loops produce exactly the table `ExtractSpec` describes for the page |
| Extract.LocateTable | SourceCode/b1.py:61-67 | defined by its body: a comment that mentions the table id is searched instead of the page, never in addition to it; no table gives nothing |
| Extract.RowDict | SourceCode/b1.py:76-82 | defined by its body: the row dict built cell by cell, skipping cells without a non-empty `data-stat`, a later cell overwriting an earlier one; its properties are `RowDictFields` and `RowDictLastWins` |
| Extract.KeptDicts | SourceCode/b1.py:70-84 | defined by its body: the dicts of the body rows that are not skipped and have a player, in body order; its properties are `KeptDictsFromDataRows`, `DataRowKept` and `KeptDictsAppend` |
| Extract.FrameOf | SourceCode/b1.py:85 | defined by its body: `pd.DataFrame` of the dicts, columns in order of first appearance, one row per dict; its properties are `FrameOfColumns` and `ExtractedColumns` |
| Extract.ExtractSpec | SourceCode/b1.py:59-86 | defined by its body: the frame of the kept dicts of the located table, or the empty frame when there is no table; `ExtractTable` is proved equal to it |
| Extract.ExtractedRowsAreDataRows | SourceCode/b1.py:61-84 | a page without the table gives the empty frame; every extracted record has a non-empty player and is the record of a body row that is neither a header, nor a spacer, nor cell-less |
| Extract.ExtractedRowsComplete | SourceCode/b1.py:70-84 | conversely, every body row that is neither skipped nor without a non-empty player yields a record of the extracted frame |
| Extract.DataRowKept | SourceCode/b1.py:70-84 | a body row that is not skipped and has a non-empty player is among the kept dicts |
| Extract.KeptDictsAppend | SourceCode/b1.py:70-84 | the kept dicts of two consecutive stretches of rows are those of the first followed by those of the second: body order is kept |
| Extract.SkippedRowsYieldNothing | SourceCode/b1.py:70-75 | a body made only of header, spacer or cell-less rows yields no records |
| Extract.KeptDictsFromDataRows | SourceCode/b1.py:70-84 | every kept row dict has a player and was built from the cells of a row that is not skipped |
| Extract.RowDictFields | SourceCode/b1.py:76-82 | a row's record has exactly the fields that some cell with a non-empty `data-stat` names, its key list names each once |
| Extract.RowDictLastWins | SourceCode/b1.py:78-82 | a field's value is the text of the last cell carrying that field |
| Extract.AllKeysMembers | SourceCode/b1.py:85 | the collected column names are exactly the fields of some record |
| Extract.KeptDictsKeysMatch | SourceCode/b1.py:76-84 | each kept record's key list names exactly its fields |
| Extract.FrameOfColumns | SourceCode/b1.py:85 | the frame built from the records has as columns exactly the fields its records carry |
| Extract.ExtractedColumns | SourceCode/b1.py:85 | the extracted frame's columns are the fields of its records, each once |
| Extract.NonEmptyExtractionHasPlayer | SourceCode/b1.py:83-85 | a non-empty extraction always has the `player` column |
| ColumnMap.LookupFrom | SourceCode/b1.py:88-113 | a lookup finds an entry pairing the field with the returned name, and finds nothing only when no entry has that field |
| ColumnMap.DisplayOf | SourceCode/b1.py:88-113 | a field's display name comes from a dictionary entry for it; no display name means the field is not in the dictionary |
| ColumnMap.DisplayNames | SourceCode/b1.py:88-113 | the display names are the dictionary's values in declaration order |
| ColumnMap.PlayerEntry | SourceCode/b1.py:89 | the first entry maps `player` to `Player` |
| ColumnNames.DisplayNamesDistinct | SourceCode/b1.py:88-113 | no two dictionary entries share a display name |
| Frames.FirstOccurrences | SourceCode/b1.py:154-155 | the de-duplicated list has no repeats, the same names as the input, and starts with the input's first name |
| Frames.FirstIndex | SourceCode/b1.py:154-155 | the returned position holds the name, and the name does not occur before it |
| Frames.FirstOccurrencesOrder | SourceCode/b1.py:154-155 | the de-duplicated names come in the order of their first occurrence in the input |
| Frames.FirstOccurrencesOfDistinct | SourceCode/b1.py:203-208 | a list without repeats is left unchanged |
| Frames.FirstOccurrencesAfter | SourceCode/b1.py:202-208 | a name that does not recur stays in front of the de-duplicated rest |
| Frames.DedupNames | SourceCode/b1.py:203-208 | the `seen`-set loop yields the first occurrences of the names, in order |
| Merge.ColumnsToBring | SourceCode/b1.py:150-155 | the columns brought from a secondary table are `player` first, then each non-identity column once, and nothing else |
| Merge.ContributedColumns | SourceCode/b1.py:151-153 | the selected secondary columns are exactly those that are neither `player` nor an identity field |
| Merge.BroughtColumns | SourceCode/b1.py:150-155 | the brought columns contain `player` and, besides it, only contributed columns of the secondary table |
| Merge.Project | SourceCode/b1.py:158 | a projected row holds exactly the selected columns the row has, with the same values |
| Merge.ProjectRows | SourceCode/b1.py:158 | projecting a table projects each row and keeps the row count |
| Merge.JoinPart | SourceCode/b1.py:159 | defined by its body: the cells a matching secondary row brings, under their own names or, on a clash with the accumulated table, `<column>_<category>_dup`; its properties are `JoinPartKeys` and `JoinPartValue` |
| Merge.Extend | SourceCode/b1.py:159 | defined by its body: a base row with the brought cells added, the base row's own cells winning; its properties are `ExtendKeepsBase` and `ExtendBringsNewColumn` |
| Merge.Matches | SourceCode/b1.py:159 | defined by its body: the secondary rows with the base row's player, in order; its properties are `MatchesHaveKey`, `MatchesComplete`, `NoMatches` and `MatchesAtMostOne` |
| Merge.JoinRow | SourceCode/b1.py:159 | defined by its body: one joined row per match, or the base row alone when nothing matches |
| Merge.LeftJoinRows | SourceCode/b1.py:159 | defined by its body: the joined rows of each base row, in base order; its properties are the `LeftJoinRows*` lemmas |
| Merge.LeftJoin | SourceCode/b1.py:159 | defined by its body: the accumulated columns followed by the joined secondary columns, and the joined rows |
| Merge.MergeStep | SourceCode/b1.py:144-159 | defined by its body: one round, skipping the `standard` table, empty tables and tables without `player`; its properties are `MergeStepKeepsBase` and `MergeStepBringsValues` |
| Merge.MergeSpec | SourceCode/b1.py:143-159 | defined by its body: the rounds over the category tables in order; `MergeCategories` is proved equal to it |
| Merge.DupNameNotOwned | SourceCode/b1.py:159 | a suffixed duplicate never takes the name of `player` or of an identity field |
| Merge.JoinPartKeys | SourceCode/b1.py:159 | a secondary row contributes only the joined names of its non-key columns |
| Merge.ExtendKeepsBase | SourceCode/b1.py:142-159 | joining keeps every cell of the base row, and the player key and identity fields are exactly the base row's |
| Merge.JoinPartValue | SourceCode/b1.py:159 | a secondary column new to the base table arrives under its own name with the matching row's value |
| Merge.ExtendBringsNewColumn | SourceCode/b1.py:159 | a joined row carries each new secondary column with the matching secondary value |
| Merge.MatchesHaveKey | SourceCode/b1.py:159 | the join matches only secondary rows with the same player |
| Merge.MatchesComplete | SourceCode/b1.py:159 | every secondary row with the base row's player is a match |
| Merge.NoMatches | SourceCode/b1.py:159 | a player absent from the secondary table has no match |
| Merge.MatchesAtMostOne | SourceCode/b1.py:159 | with unique secondary players a base row matches at most once |
| Merge.LeftJoinRowsFromBase | SourceCode/b1.py:159 | every joined row extends one base row and keeps its player key and identity fields |
| Merge.LeftJoinRowsKeepBase | SourceCode/b1.py:159 | the left join keeps every base row, and an unmatched base row appears unchanged, its new columns missing |
| Merge.LeftJoinRowsMatched | SourceCode/b1.py:159 | a base row joined with each of its matches is a row of the join |
| Merge.LeftJoinBringsValues | SourceCode/b1.py:159 | a base row matched by a secondary row gains, in a joined row, each column of that row that is new to the accumulated table, with the secondary value |
| Merge.LeftJoinRowsCount | SourceCode/b1.py:159 | with unique secondary players the left join keeps the row count |
| Merge.MergeStepKeepsBase | SourceCode/b1.py:144-159 | one merge round keeps every accumulated row, takes no identity value from the secondary table, keeps the columns as a prefix, and keeps the row count when secondary players are unique |
| Merge.MergeStepBringsValues | SourceCode/b1.py:144-159 | in a round that joins a table, an accumulated row whose player matches a row of that table gains each new contributed column of it, with that row's value |
| Merge.MergeSpecStep | SourceCode/b1.py:143-159 | one more category table is one more round |
| Merge.MergeSpecSplit | SourceCode/b1.py:143-159 | merging two runs of tables one after the other is merging their concatenation |
| Merge.LaterRoundsKeepRow | SourceCode/b1.py:143-159 | a row after some rounds is extended by a row of the final merged table |
| Merge.MergeCategories | SourceCode/b1.py:143-159 | the merge loop computes the fold `MergeSpec` over the category tables |
| Merge.MergedRowsExtendStandard | SourceCode/b1.py:142-159 | every merged row carries all cells of one `standard` row, and its player key and identity fields are exactly that row's |
| Merge.MergeKeepsStandardRows | SourceCode/b1.py:143-159 | every `standard` row survives the merge: some merged row carries all its cells |
| Merge.MergeBringsValues | SourceCode/b1.py:143-159 | a value a round brings to a matched row survives the later rounds: some row of the final merged table extends that row and holds the secondary value |
| Merge.MergeRowCount | SourceCode/b1.py:143-159 | when no category lists a player twice, the merged table has one row per `standard` row |
| Merge.MergedColumnsStartWithStandard | SourceCode/b1.py:143-159 | the merged columns start with the `standard` table's columns, in order |
| Numbers.RemoveCommas | SourceCode/b1.py:163 | the text without separators has no comma, is no longer, and is unchanged when there is no comma |
| Numbers.RemoveCommasCounts | SourceCode/b1.py:163 | removing separators shortens the text by exactly its number of commas and keeps every other character as often |
| Numbers.RemoveCommasConcat | SourceCode/b1.py:163 | removing commas distributes over concatenation |
| Numbers.DecimalString | SourceCode/b1.py:164 | every number has a non-empty numeral made of digits |
| Numbers.ParseDecimalString | SourceCode/b1.py:164 | reading a numeral gives back its number |
| Numbers.CommaIgnored | SourceCode/b1.py:163-164 | a comma anywhere in the minutes text does not change the minutes read |
| Numbers.ParseNumber | SourceCode/b1.py:164 | defined by its body: a non-empty string of digits reads as its value, anything else as missing; `ParseDecimalString` is its round trip |
| Numbers.ParseMinutes | SourceCode/b1.py:163-164 | defined by its body: a missing value stays missing, a present one is read after removing commas; `CommaIgnored` states the comma rule |
| Dedup.PlayerBeforeTotal | SourceCode/b1.py:165 | any two different player keys are ordered, a missing one last |
| Dedup.PlayerBeforeTransitive | SourceCode/b1.py:165 | the player order is transitive |
| Dedup.DedupLeTransitive | SourceCode/b1.py:165 | the dedup sort order is transitive |
| Dedup.DedupLe | SourceCode/b1.py:165 | defined by its body: player ascending with a missing player last, then minutes descending with missing minutes last, then original position; `DedupLeTotalPreorder` states it is a total preorder |
| Dedup.MaxMinutesRows | SourceCode/b1.py:162-167 | defined by its body: the first row per player of the sorted rows; its properties are the `MaxMinutesRows*` lemmas |
| Dedup.DropDuplicatePlayers | SourceCode/b1.py:161-169 | defined by its body: the minutes branch, the plain keep-first branch, or nothing without `player`; its properties are `DropDuplicatePlayersSpec` |
| Dedup.Indexed | SourceCode/b1.py:165 | each row is paired with its original position |
| Dedup.InSortedForDedup | SourceCode/b1.py:165 | every input row appears in the sorted rows with its position |
| Dedup.DedupLeTotalPreorder | SourceCode/b1.py:165 | the sort order (player ascending with missing last, minutes descending with missing last, then original position) is a total preorder |
| Dedup.SortedForDedup | SourceCode/b1.py:165 | the sorted rows are in that order and are a permutation of the indexed rows |
| Dedup.SamePlayerOrder | SourceCode/b1.py:165 | between rows of one player the sort puts more minutes first, and the earlier row first on equal minutes |
| Dedup.FirstOfPlayerIsBest | SourceCode/b1.py:165-166 | the first sorted row of a player is that player's best row: no row of the player has more minutes, and no earlier row has as many |
| Dedup.MaxMinutesRowsAreBest | SourceCode/b1.py:162-167 | with a minutes column every kept row is its player's best row of the input |
| Dedup.MaxMinutesRowsUnique | SourceCode/b1.py:166 | with a minutes column no two kept rows share a player |
| Dedup.MaxMinutesRowsCover | SourceCode/b1.py:166 | with a minutes column every player of the input keeps a row |
| Dedup.FirstOccurrencesKept | SourceCode/b1.py:168-169 | without a minutes column the kept rows are unique per player, cover every player and are each player's first row |
| Dedup.DropDuplicatePlayersSpec | SourceCode/b1.py:161-169 | the dedup step keeps the columns, leaves one row per player, loses no player, and keeps the best-minutes row (with minutes) or the first row (without) |
| Normalize.MappedSourceFrom | SourceCode/b1.py:171 | a dictionary field found for a display name is a field of the row renamed to it; none found means no row field is renamed to it through the dictionary |
| Normalize.UnmappedSource | SourceCode/b1.py:171-172 | when no dictionary field of the row is renamed to a new name, that name is itself a field of the row that keeps its name |
| Normalize.SourceField | SourceCode/b1.py:171-172 | the field whose value a renamed column holds is a field of the row that is renamed to that column |
| Normalize.RenameRowSpec | SourceCode/b1.py:171-172 | a renamed row has exactly the renamed names of its fields, and a field sharing its new name with no other keeps its value |
| Normalize.RenameRow | SourceCode/b1.py:171-172 | defined by its body: every field under its renamed name with the value of its source field; its properties are `RenameRowSpec` and `SourceField` |
| Normalize.RenameColumns | SourceCode/b1.py:171-172 | renaming maps every column name and every row through the dictionary, keeping counts |
| Normalize.RenameKeepsPlayer | SourceCode/b1.py:171-172 | renaming moves the player value, present or missing, to `Player` |
| Normalize.TrailingUpper | SourceCode/b1.py:176 | the result is the longest run of capital letters that ends the text |
| Normalize.UpperTailUnique | SourceCode/b1.py:176 | the trailing run of capital letters is unique |
| Normalize.NationCode | SourceCode/b1.py:174-179 | the nationality becomes its trailing capital letters (before an optional final newline), or stays as it is when there are none |
| Normalize.NationCodeIdempotent | SourceCode/b1.py:174-180 | a country code is its own code |
| Normalize.NationCodeAfterName | SourceCode/b1.py:174-180 | "eng ENG" becomes "ENG" |
| Normalize.NationCodeFinalNewline | SourceCode/b1.py:174-180 | "ENG" followed by a newline becomes "ENG", because `$` matches before a final newline |
| Normalize.NationCodeBareCode | SourceCode/b1.py:174-180 | "BRA" is kept |
| Normalize.NationCodeNoCode | SourceCode/b1.py:174-180 | "Unknown", which does not end in capitals, is kept |
| Normalize.FixNation | SourceCode/b1.py:173-180 | with a `Nation` column each present nationality is replaced by its code, and a missing one stays missing |
| Normalize.Before | SourceCode/b1.py:184 | `split(c)[0]` is the longest prefix without `c` |
| Normalize.BeforeIdempotent | SourceCode/b1.py:184 | cutting at the first dash twice changes nothing |
| Normalize.AgeText | SourceCode/b1.py:182-185 | the age is the stringified value up to its first dash; a missing age becomes `nan` |
| Normalize.AgeTextExamples | SourceCode/b1.py:182-185 | "27-045" becomes "27", "31" stays, a missing age becomes "nan" |
| Normalize.FixAge | SourceCode/b1.py:182-185 | with an `Age` column every row gets the age text, missing values included |
| Normalize.FilterMinutes | SourceCode/b1.py:186-191 | with a `Minutes` column the kept rows are exactly the rows whose minutes parse and exceed 90, and no row is added |
| Normalize.PlayedEnough | SourceCode/b1.py:187-190 | defined by its body: the minutes parse and exceed 90; the examples are `NinetyMinutesDropped`, `NinetyOneMinutesKept` and `SeparatedMinutesKept` |
| Normalize.NinetyMinutesDropped | SourceCode/b1.py:190 | a player with exactly 90 minutes is dropped |
| Normalize.NinetyOneMinutesKept | SourceCode/b1.py:190 | a player with 91 minutes is kept |
| Normalize.SeparatorRemoved | SourceCode/b1.py:187 | "1,234" without its separator is "1234" |
| Normalize.ReadsThousands | SourceCode/b1.py:188 | "1234" reads as 1234 |
| Normalize.SeparatedMinutesKept | SourceCode/b1.py:187-190 | "1,234" minutes is read as 1234 and kept |
| Normalize.FirstNameKey | SourceCode/b1.py:195 | the key is the text before the first space, the whole text when it has none, and `N/A_Player` for empty text |
| Normalize.FirstNameLeTotalPreorder | SourceCode/b1.py:197 | ordering rows by that key is a total preorder |
| Normalize.FirstNameLe | SourceCode/b1.py:194-197 | defined by its body: the first-name keys in Python's string order; `FirstNameLeTotalPreorder` states it is a total preorder |
| Normalize.SortByFirstName | SourceCode/b1.py:192-198 | with a `Player` column the rows end up in ascending first-name order, as a permutation of the input rows |
| Normalize.CleanUpSpec | SourceCode/b1.py:171-198 | the clean-up keeps the renamed columns, keeps only rows with more than 90 minutes when there is a minutes column, sorts by first name when there is a player column, and adds no row |
| Normalize.CleanUp | SourceCode/b1.py:171-200 | defined by its body: rename, nationality, age, minutes filter and first-name sort, in that order; its properties are `CleanUpSpec` and `CleanUpKeepsPlayersUnique` |
| Normalize.CleanUpKeepsPlayersUnique | SourceCode/b1.py:171-198 | a table with one row per player still has one row per `Player` after the clean-up |
| Output.PlayerFirst | SourceCode/b1.py:202 | the order list is `Player` followed by every other name, in order |
| Output.OtherNames | SourceCode/b1.py:202 | the names kept after `Player` are exactly the given names other than `Player` |
| Output.ColumnOrder | SourceCode/b1.py:202-208 | defined by its body: the first occurrences of `Player` followed by the other names; its properties are `ColumnOrderSpec` and `ColumnOrderOfDistinct` |
| Output.DeclaredColumns | SourceCode/b1.py:202-208 | defined by its body: the column order of the dictionary's display names; `DeclaredColumnsSpec` states what it is |
| Output.OrderColumns | SourceCode/b1.py:202-208 | the column-order loop and its `seen` set produce `ColumnOrder` of the names |
| Output.ColumnOrderSpec | SourceCode/b1.py:202-208 | the order is `Player`, then the other names each once in the order of their first occurrence; it repeats no name and holds exactly `Player` and the given names |
| Output.ColumnOrderOfDistinct | SourceCode/b1.py:202-208 | a list that starts with `Player` and repeats no name is its own column order |
| Output.DeclaredColumnsSpec | SourceCode/b1.py:202-208 | the output columns are exactly the dictionary's display names in declaration order: `Player` first, each name once |
| Output.Fill | SourceCode/b1.py:229-231 | a cell becomes `N/a` when missing or blank, and keeps a non-blank value |
| Output.Height | SourceCode/b1.py:211-227 | defined by its body: the frame's row count, or one row when the frame is empty and shares no column with the header |
| Output.CellOf | SourceCode/b1.py:212-216 | defined by its body: the filled value of a column the frame has, `N/a` for one it lacks |
| Output.BuildResults | SourceCode/b1.py:210-231 | the output has the declared columns in order; it has the frame's row count, or one row of `N/a` for an empty frame sharing no column; each cell is the filled value of a present column or `N/a` |
| Output.SentinelNotBlank | SourceCode/b1.py:229-231 | the sentinel itself is not blank |
| Output.CellsComplete | SourceCode/b1.py:229-231 | every output cell is non-blank: a value or the sentinel |
| Pipeline.CollectTables | SourceCode/b1.py:119-126 | the page loop keeps, in category order, each category whose extraction is not an empty frame |
| Pipeline.Collected | SourceCode/b1.py:119-126 | defined by its body: the categories, in order, whose extraction is not an empty frame, each with its table; `CollectTables` is proved equal to it |
| Pipeline.FindTable | SourceCode/b1.py:134 | defined by its body: the table kept for a category, if any; `FindCollected` states what it finds |
| Pipeline.FindCollected | SourceCode/b1.py:134 | looking up a category gives its page's extraction, or nothing when that extraction is an empty frame |
| Pipeline.CollectedEmpty | SourceCode/b1.py:131-133 | no table is kept exactly when every category's extraction is an empty frame |
| Pipeline.Assemble | SourceCode/b1.py:142-231 | merging, deduplicating, cleaning and laying out a `standard` table and the category tables gives the declared columns, the expected shape, and in every cell the cleaned table's value or `N/a` |
| Pipeline.Cleaned | SourceCode/b1.py:142-200 | defined by its body: merge, then dedup, then clean-up |
| Pipeline.FinalTable | SourceCode/b1.py:115-200 | defined by its body: the cleaned table for the pages `fetch` gives; `Run` lays it out |
| Pipeline.Run | SourceCode/b1.py:115-231 | the run fails exactly when the `standard` page yields an empty frame (with no tables at all, or without the standard one); otherwise the output has the declared columns, the expected shape, and in every cell the cleaned table's value or `N/a` |
| Pipeline.CleanedHasPlayerColumn | SourceCode/b1.py:142-172 | a `standard` table with a `player` column leaves the cleaned table with the `Player` column |
| Pipeline.FinalHasPlayerColumn | SourceCode/b1.py:134-172 | when the run gets past its checks, the cleaned table has the `Player` column |
| Pipeline.FinalPlayersUnique | SourceCode/b1.py:159-198 | after merge, dedup and clean-up each player has at most one row, unless another field is renamed to `Player` |
| Sorting.InsertionSort | SourceCode/b1.py:165 | sorting yields an ordered permutation of its input |
| Sorting.Insert | SourceCode/b1.py:165 | inserting into an ordered list keeps it ordered and adds exactly the element |
| Sorting.KeepFirstOrigins | SourceCode/b1.py:166 | every row `drop_duplicates` keeps is an input row whose key does not occur before it |
| Sorting.KeepFirstUnique | SourceCode/b1.py:166 | no two kept rows share a key |
| Sorting.KeepFirstCovers | SourceCode/b1.py:166 | every key of the input has a kept row |
| Sorting.DistinctKeysSurvive | SourceCode/b1.py:189-197 | dropping or reordering rows keeps distinct players distinct |
| Sorting.SubMultisetShorter | SourceCode/b1.py:189-190 | dropping rows never makes a table longer |
| Sorting.Filter | SourceCode/b1.py:189-190 | the kept elements are exactly those passing the test, as a sub-multiset of the input |
| Sorting.FilterCounts | SourceCode/b1.py:189-190 | an element that passes occurs in the filter as often as in the input |
| Sorting.FilterAppend | SourceCode/b1.py:189-190 | filtering a concatenation filters each part and keeps them in order: the input order is kept |
| Sorting.FilterKeepsAll | SourceCode/b1.py:202 | a list whose elements all pass is its own filter |
| Sorting.FilterSnoc | SourceCode/b1.py:202 | filtering one more element appends it exactly when it passes |
| Sorting.FilterPrefixStep | SourceCode/b1.py:202 | filtering a prefix one element longer appends that element exactly when it passes |
| Text.StrLtTotal | SourceCode/b1.py:197 | Python's string order ranks any two distinct strings |
| Text.StrLtIrreflexive | SourceCode/b1.py:197 | no string sorts before itself |
| Text.StrLtAsymmetric | SourceCode/b1.py:197 | two strings are never each before the other |
| Text.StrLtTransitive | SourceCode/b1.py:197 | Python's string order is transitive |

## Left out

- Fetching pages (`get_driver`, `get_page_source_with_selenium`, b1.py:26-56): browser automation, waits and sleeps are I/O. The pages are the parameter `fetch` of `Pipeline.Run`.
- HTML parsing (b1.py:59-66): BeautifulSoup is a library. A page is modelled by what the parser finds in it: the table body inside the first comment that mentions the table id, if there is one, and otherwise the table body in the page. A cell's text is given as `get_text(strip=True)` returns it.
- A table without a `tbody` (b1.py:70): `table.find("tbody")` is `None` and the script ends with an `AttributeError`, writing nothing. The model's page always gives a found table's body rows, so this crash is not represented.
- Writing `results.csv`, the progress messages and `exit()` (b1.py:131-140, 232-236): I/O. A failed run is a `Failure` result.
- `SourceCode/b2.py`, `SourceCode/b3.py` and `SourceCode/b4 - y1.py` are not part of this model: they do floating-point statistics, clustering and plotting, or scrape a second site.
- Numbers.ParseMinutes: reads only non-empty digit strings after removing commas. `pd.to_numeric` also accepts signs, decimals, exponents and surrounding blanks; the published minute counts are whole numbers, and any other text is read as missing.
- Normalize.SortByFirstName: pandas' default sort is not stable. The model sorts stably, but its contract promises only ascending first-name order and a permutation, so any order among equal first names satisfies it. `Pipeline.Run` and `Pipeline.Assemble` state their output through `FinalTable` and `Cleaned`, which use this insertion sort, so their cell-by-cell contracts fix one order among rows with equal first names that pandas does not promise. The `try`/`except` around the sort (b1.py:193-200) has no failing case in the model.
- Merge.JoinPart: if a suffixed name `<column>_<category>_dup` already exists in the accumulated table, pandas refuses the merge. The model lets the later column overwrite it. The base row's own cells still always win.
- Normalize.RenameRow: if two fields of a row get the same display name (only possible when the frame already has a column named like a display name), pandas keeps both columns under one label. The model keeps one value, a dictionary field's first. `Normalize.RenameRowSpec` and `Pipeline.FinalPlayersUnique` state their guarantees only for fields that share their new name with no other field.
- Output.BuildResults: the output is returned column by column, as the source's dictionary of series holds it. Index alignment between series is not modelled, because every series shares the frame's index.
- Values in the model are strings, and a missing value is an absent key. pandas' float NaN is never stored; where the source stringifies a missing value (age, minutes, the sort key) the model uses the text `nan`, as Python prints it.

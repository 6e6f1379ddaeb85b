# critic: Elo ratings, pair selection, stores and screens

This project models the rating core of `critic` in Dafny. `critic` ranks titles by pairwise
comparison. A user is shown two titles under a criterion and picks one, picks "equal", or
skips. The judgment is saved, both ratings move by the Elo rule, and the next pair is
proposed. A terminal front end, `critic-term`, has a rating screen, a ranking screen and a
title screen.

The modules are:

- `Elo` (`critic/src/elo/mod.rs`): the K-factor tiers and `calc_change`, with the floor
  clamp below rating 100 and rounding half away from zero.
- `Sqlite`: results, errors, column reads (`row.get`) and the fault oracle. The fault
  oracle `fault` is the position (counted from 0) of the statement the engine rejects in a
  transaction. The commit comes last. It also holds column affinity: the rules that give a
  declared column type its affinity, and how a TEXT parameter is stored in a column of each
  affinity (section 3.1 and section 4.2 of SQLite's "Datatypes In SQLite Version 3").
- `Dto` (`critic/src/dto`): the records passed between the store and its callers.
- `CategoryStore` (`critic/src/critic_sqlite/mod.rs`): the first-generation tables
  `entries`, `categories`, `entry_categories` and `match_history`. Names and category
  values are kept as the columns store them, under the affinity of their declared type. It
  also holds the insert-if-absent statements of `NewCategoryItem::save`, and that save as a
  method of a `Connection` class.
- `Matchmaking` (`critic/src/critic_sqlite/mod.rs`): the `next_contest` query over those
  tables. It takes the category as a parameter, forms the candidate pairs (smaller id
  first), drops the pairs already judged in that category, and picks a pair of least
  rating distance.
- `CriteriaStore` (`critic/src/critic_sqlite/match_result.rs`,
  `critic/src/critic_sqlite/new_criterion_item.rs`): the second-generation store. It has
  match records, per-(title, group) ratings, titles and title-criterion links. A new
  link brings the rating row of its title and group at the baseline 1000. It
  implements `MatchResult::save` and `NewCategoryItem::save` as transactions on a
  `Connection` class.
- `CriticData` (`critic/src/critic_sqlite/critic_data.rs`): the column mapping of
  `next_contest`, and the window arithmetic and row collection of `top`.
- `Terminal`: key events, and ratatui's list selection (`select_next`, `select_previous`,
  `select_first`, `select_last`, and the clamp applied when rendering).
- `Rate` (`critic-term/src/app/rate.rs`): the rating screen as the class `RateWidget`.
- `TopTab` (`critic-term/src/app/top_tab.rs`): the ranking screen as the class
  `TopWidget`.
- `TitleTab` (`critic-term/src/app/title_tab.rs`): the title screen as the class
  `TitleWidget`, restricted to opening the group editor, editing and saving group
  memberships, and the delete prompt.

The first-generation `next_contest` query is computed from the tables by `Matchmaking`.
The queries of the second-generation store and of the screens are parameters of the
operation that runs them: the first result row, a function from bound parameters to rows,
or the answer after the writes. The engine's rejection of a statement is decided by the
fault oracle.

## Model

| member | source | states |
|---|---|---|
| Sqlite.GetI32 | critic/src/critic_sqlite/critic_data.rs:12 | reading an `i32` column succeeds exactly on an INTEGER that fits in 32 bits, and yields that integer; an out-of-range integer is `IntegralValueOutOfRange` |
| Sqlite.GetF32 | critic/src/critic_sqlite/critic_data.rs:14 | reading an `f32` column succeeds exactly on an INTEGER or REAL, with its value |
| Sqlite.GetString | critic/src/critic_sqlite/critic_data.rs:13 | reading a `String` column succeeds exactly on TEXT, with its value |
| Sqlite.Issued | critic/src/critic_sqlite/match_result.rs:20-40 | a transaction that commits sends every statement and then the commit; otherwise it sends exactly up to and including the rejected statement |
| Sqlite.AffinityOf | critic/src/critic_sqlite/mod.rs:20 | a declared type containing `INT` has INTEGER affinity; one with `CHAR`, `CLOB` or `TEXT` (and no `INT`) exactly TEXT affinity; NUMERIC affinity only when none of the eight substrings occurs |
| Sqlite.DeclaredAffinities | critic/src/critic_sqlite/mod.rs:20-27 | the declared type `STRING` of `name` and `value` has NUMERIC affinity; `TEXT` would have TEXT affinity |
| Sqlite.DigitsValue | critic/src/critic_sqlite/mod.rs:157-158 | leading zeros do not change the number a run of digits denotes |
| Sqlite.DigitsValueFront | critic/src/critic_sqlite/mod.rs:157-158 | the number a run of digits denotes, read from the front: the first of n digits counts 10^(n-1) times its value plus the number the remaining digits denote, and n digits stay below 10^n |
| Sqlite.Stored | critic/src/critic_sqlite/mod.rs:157-158 | a bound name stays TEXT, unchanged, exactly when the column does not convert or the name is not an integer literal; otherwise it becomes the literal's value, an INTEGER within 64 bits or a REAL |
| Sqlite.NumericLiterals | critic/src/critic_sqlite/mod.rs:20 | under NUMERIC affinity "1984" and "01984" are both stored as the INTEGER 1984 |
| Sqlite.TextStoredInjective | critic/src/critic_sqlite/mod.rs:20 | under TEXT affinity two names are stored alike exactly when they are equal |
| Sqlite.IssuedPrefix | critic/src/critic_sqlite/match_result.rs:20-40 | what a transaction sends before its last statement is a prefix of its statements, in order |
| Elo.KFactor | critic/src/elo/mod.rs:2-13 | the K-factor is always one of 5, 10, 15, 20, 25, 30, 35, 40, 60, 80 |
| Elo.KFactorNonIncreasing | critic/src/elo/mod.rs:3-12 | a higher rating never has a larger K-factor |
| Elo.KFactorThresholds | critic/src/elo/mod.rs:3-12 | thresholds are strict: 2400 gives 10, 1000 gives 60, and every rating up to 800 (negatives included) gives 80 |
| Elo.Round | critic/src/elo/mod.rs:28 | the result is within one half of its argument, and halfway cases go away from zero |
| Elo.RoundOdd | critic/src/elo/mod.rs:28 | rounding commutes with negation |
| Elo.RoundUnique | critic/src/elo/mod.rs:28 | a whole number closer than one half to `x` is the rounding of `x`, so the contract of `Round` determines it |
| Elo.CalcChange | critic/src/elo/mod.rs:15-28 | each change is the whole number nearest its clamped raw change (K times score minus expected score), for `a` with `s` and for `b` with `1 - s`; a contestant rated below 100 never gets a negative change |
| Elo.CalcChangeSwap | critic/src/elo/mod.rs:15-28 | swapping the contestants and scoring `1 - s` swaps the two changes |
| Elo.CalcChangeFloor | critic/src/elo/mod.rs:25-26 | below rating 100 a negative change becomes 0, for either contestant; the clamp on one contestant never affects the other's change |
| Elo.RawChangeBelowK | critic/src/elo/mod.rs:18-22 | with a score in [0, 1] and an expected score in (0, 1), the raw change is strictly smaller in magnitude than the K-factor |
| Elo.CalcChangeBounded | critic/src/elo/mod.rs:18-28 | under the same conditions each rounded change has magnitude at most its contestant's K-factor |
| Elo.CalcChangeWinLoss | critic/src/elo/mod.rs:18-28 | a win never gives a negative first change, a loss never a positive one |
| Elo.CalcChangeDraw | critic/src/elo/mod.rs:15-28 | a draw between evenly expected contestants changes nothing |
| Elo.RawChangeOpposite | critic/src/elo/mod.rs:18-22 | in the same K tier, opposite scores against complementary expectations give opposite raw changes |
| Elo.CalcChangeConservation | critic/src/elo/mod.rs:15-28 | in the same K tier, with complementary expectations and both ratings at least 100, one contestant gains what the other loses |
| CategoryStore.Opened | critic/src/critic_sqlite/mod.rs:11-55 | a new file has four empty tables; with the declared type as written the name columns have NUMERIC affinity, with `TEXT` they would have TEXT affinity |
| CategoryStore.EntryNamed | critic/src/critic_sqlite/mod.rs:174 | the lookup by stored name finds a row with that name, and finds none only when no row has it |
| CategoryStore.EntryWithId | critic/src/critic_sqlite/mod.rs:84-85 | the lookup by id finds a row with that id, and finds none only when no row has it |
| CategoryStore.CategoryWithValue | critic/src/critic_sqlite/mod.rs:175 | the lookup by stored value finds a row with that value, and finds none only when no row has it |
| CategoryStore.CategoryWithId | critic/src/critic_sqlite/mod.rs:110 | the lookup by id finds a category with that id, and finds none only when no row has it |
| CategoryStore.NextEntryId | critic/src/critic_sqlite/mod.rs:19 | a new entry's rowid exceeds every existing id: one more than the largest, or 1 in an empty table |
| CategoryStore.NextCategoryId | critic/src/critic_sqlite/mod.rs:26 | a new category's rowid exceeds every existing id: one more than the largest, or 1 in an empty table |
| CategoryStore.Apply | critic/src/critic_sqlite/mod.rs:150-176 | a statement fails exactly when it is a link insert whose entry or category is missing, and then with the NOT NULL error; otherwise it only appends rows, keeps `match_history`, and leaves the inserted entry or category present under its stored value |
| CategoryStore.RunAppend | critic/src/critic_sqlite/mod.rs:180-190 | running two statement lists in sequence is running the first, then the second unless the first failed |
| CategoryStore.SubCategoryStatements | critic/src/critic_sqlite/mod.rs:184-190 | at most two statements per sub-category, each a category insert or a link insert |
| CategoryStore.ItemStatements | critic/src/critic_sqlite/mod.rs:180-190 | the entry insert comes first, then at most two statements per sub-category, and no commit among them |
| CategoryStore.SubCategoryStatementsShape | critic/src/critic_sqlite/mod.rs:184-190 | the loop's statements only insert, or link the entry to, the non-empty sub-categories of the item |
| CategoryStore.SavedStable | critic/src/critic_sqlite/mod.rs:180-190 | appending rows never undoes a completed save |
| CategoryStore.SaveRuns | critic/src/critic_sqlite/mod.rs:180-190 | the save never hits a NOT NULL constraint; afterwards the entry exists, every non-empty sub-category exists and is linked to it, rows are only appended, `match_history` is untouched, and a newly created entry has a fresh id and rating 1000 |
| CategoryStore.InsertEntryEffect | critic/src/critic_sqlite/mod.rs:157-158 | the entry insert always succeeds; afterwards the entry exists, and a newly created one has rating 1000 and a fresh id |
| CategoryStore.SubCategoryStep | critic/src/critic_sqlite/mod.rs:185-189 | one loop iteration succeeds, extends the save to the next sub-category and leaves the entry row as it was |
| CategoryStore.InsertCategoryEffect | critic/src/critic_sqlite/mod.rs:165-166 | the category insert always succeeds, leaves the entries alone and leaves the category present |
| CategoryStore.InsertLinkEffect | critic/src/critic_sqlite/mod.rs:172-176 | once the entry and the category exist, the link insert succeeds and leaves exactly their ids linked |
| CategoryStore.SaveIdempotent | critic/src/critic_sqlite/mod.rs:157-176 | saving the same item twice leaves the tables as one save does |
| CategoryStore.SaveSucceeds | critic/src/critic_sqlite/mod.rs:172-176 | the statements of a save are never rejected by the store's constraints |
| CategoryStore.DistinctAppend | critic/src/critic_sqlite/mod.rs:37 | appending rows none of which is present keeps the rows distinct |
| CategoryStore.DistinctTail | critic/src/critic_sqlite/mod.rs:37 | the tail of distinct rows is distinct and does not hold the head |
| CategoryStore.RunKeepsLinksDistinct | critic/src/critic_sqlite/mod.rs:37 | no run of statements duplicates a row of `entry_categories` |
| CategoryStore.RunKeepsTextColumns | critic/src/critic_sqlite/mod.rs:20-27 | with TEXT affinity on the name columns, statements keep every name and category value TEXT |
| CategoryStore.SavedNumericTitle | critic/src/critic_sqlite/mod.rs:20 | with the schema as written, saving the title "1984" stores its name as the INTEGER 1984 |
| CategoryStore.LeadingZeroSameEntry | critic/src/critic_sqlite/mod.rs:18-23 | with the schema as written, once "1984" is stored, inserting "01984" adds no row: both names are the same entry |
| CategoryStore.Connection.Execute | critic/src/critic_sqlite/mod.rs:180-189 | one statement is sent; it fails if the engine rejects it, otherwise it has its effect |
| CategoryStore.Connection.ExecuteInOrder | critic/src/critic_sqlite/mod.rs:180-190 | the statements are sent in order up to the first rejected one, whose error is returned; otherwise the result is their combined effect |
| CategoryStore.Connection.Transaction | critic/src/critic_sqlite/mod.rs:180-194 | statements the constraints accept, then the commit: it returns 1 with the tables equal to the statements' effect exactly when the engine rejects none of them; otherwise it returns the engine's error and the tables are as they were |
| CategoryStore.Connection.SaveNewCategoryItem | critic/src/critic_sqlite/mod.rs:147-194 | all or nothing: it returns 1 with the committed tables equal to the save's effect exactly when no statement or the commit is rejected; otherwise it returns the error and the tables are unchanged |
| Matchmaking.Eligible | critic/src/critic_sqlite/mod.rs:75-92 | an eligible pair has the smaller id first and both entries present |
| Matchmaking.PairsWith | critic/src/critic_sqlite/mod.rs:81-91 | the join of one link row with the others gives exactly the unplayed pairs in the category that start with that row's entry |
| Matchmaking.Unevaluated | critic/src/critic_sqlite/mod.rs:75-92 | the view holds exactly the pairs of linked entries with the smaller id first and no history row in either order |
| Matchmaking.UnevaluatedExactly | critic/src/critic_sqlite/mod.rs:75-92 | a pair is in the view if and only if it is eligible |
| Matchmaking.PairsWithDistinct | critic/src/critic_sqlite/mod.rs:81-83 | without duplicate link rows, one row's join gives no pair twice |
| Matchmaking.UnevaluatedDistinct | critic/src/critic_sqlite/mod.rs:37 | under `UNIQUE(entry_id, category_id)` every unordered pair is a candidate at most once |
| Matchmaking.Distance | critic/src/critic_sqlite/mod.rs:79 | the distance of a pair is the absolute difference of the two ratings |
| Matchmaking.Closest | critic/src/critic_sqlite/mod.rs:93-101 | the chosen pair is a candidate, and no candidate is closer |
| Matchmaking.ContestFromRow | critic/src/critic_sqlite/mod.rs:115-141 | the row decodes exactly when its eight columns have the expected types and ranges; columns 0-2 become `a`, 3-5 `b` and 6-7 the category |
| Matchmaking.ResultRow | critic/src/critic_sqlite/mod.rs:102-110 | eight columns in `SELECT` order; ids and ratings are INTEGERs, and names and the category value are passed on as the columns store them |
| Matchmaking.ResultRowRoundTrip | critic/src/critic_sqlite/mod.rs:102-141 | the result row of two entries and a category reads back as their contest exactly when every id and rating fits in `i32` and both names and the category value are TEXT |
| Matchmaking.ResultRowNameUnreadable | critic/src/critic_sqlite/mod.rs:115-117 | a first entry whose name is not TEXT fails with `InvalidColumnType(1)` |
| Matchmaking.NextContest | critic/src/critic_sqlite/mod.rs:64-144 | with no category, or no eligible pair in the picked one, the result is `QueryReturnedNoRows`; if an eligible pair exists, the values fit and the names are TEXT, there is a result; every result is an eligible pair of the picked category at least distance, with both entries' TEXT names and ratings |
| Matchmaking.NoRematch | critic/src/critic_sqlite/mod.rs:87-91 | once a judgment of a pair is recorded in a category, in either order, the pair is never eligible there again |
| Matchmaking.UniqueClosestChosen | critic/src/critic_sqlite/mod.rs:93-110 | when one eligible pair is strictly closest and the store is readable, it is the pair returned, with those two entries |
| Matchmaking.NumericTitlesUnreadable | critic/src/critic_sqlite/mod.rs:64-144 | with the schema as written, titles "1984" and "2001" in one category form an eligible pair, yet `next_contest` fails with `InvalidColumnType(1)` |
| Matchmaking.TextSchemaReadable | critic/src/critic_sqlite/mod.rs:64-144 | with TEXT affinity, every store built from a new file by successful statements answers `next_contest` whenever a pair is eligible and the ids and ratings fit |
| CriteriaStore.Apply | critic/src/critic_sqlite/new_criterion_item.rs:20-32 | records, titles and links only grow, and records only by the statement's own record; no rating row disappears; only a rating update changes a rating; a new rating row comes only from a link insert, at the baseline, for that link's title and group |
| CriteriaStore.ApplyKeepsRatingsMatchLinks | critic/src/critic_sqlite/new_criterion_item.rs:28-32 | every statement keeps the invariant that a rating row exists exactly when an association of its title with a criterion of its group does |
| CriteriaStore.RunKeepsRatingsMatchLinks | critic/src/critic_sqlite/new_criterion_item.rs:20-32 | every run of statements keeps that invariant |
| CriteriaStore.RunAppend | critic/src/critic_sqlite/match_result.rs:20-37 | running two statement lists in sequence is running their concatenation |
| CriteriaStore.RecordOf | critic/src/critic_sqlite/match_result.rs:20-28 | the inserted record carries the criterion, both contestants, the score and both rating changes |
| CriteriaStore.MatchStatements | critic/src/critic_sqlite/match_result.rs:20-37 | the record insert first, then the update of `a` by its change and of `b` by its change, both in the judgment's criteria group |
| CriteriaStore.MatchEffect | critic/src/critic_sqlite/match_result.rs:20-37 | the save appends exactly one record; only the two (title, criteria group) rating rows named by the updates change, each by its change; titles and links are untouched |
| CriteriaStore.NonEmpty | critic/src/critic_sqlite/new_criterion_item.rs:28 | the empty names are dropped, and every other name is kept |
| CriteriaStore.NonEmptyAppend | critic/src/critic_sqlite/new_criterion_item.rs:28 | the filtering distributes over concatenation |
| CriteriaStore.LinkStatements | critic/src/critic_sqlite/new_criterion_item.rs:28-32 | one link statement per criterion, in order |
| CriteriaStore.ItemStatements | critic/src/critic_sqlite/new_criterion_item.rs:20-32 | two statements plus one per non-empty sub-category, and no commit among them |
| CriteriaStore.ItemStatementsOrder | critic/src/critic_sqlite/new_criterion_item.rs:20-32 | the title insert comes first, the link to "General" second, then only links of that title to non-empty sub-categories of the item |
| CriteriaStore.ItemStatementsCover | critic/src/critic_sqlite/new_criterion_item.rs:28-32 | every non-empty sub-category gets its link statement |
| CriteriaStore.RunLinks | critic/src/critic_sqlite/new_criterion_item.rs:28-32 | link statements only add links and baseline rating rows, and add every one of the links |
| CriteriaStore.HeadEffect | critic/src/critic_sqlite/new_criterion_item.rs:20-26 | the title insert and the "General" link leave the title present and linked to "General", records untouched and existing ratings unchanged |
| CriteriaStore.ItemEffect | critic/src/critic_sqlite/new_criterion_item.rs:20-32 | after the save the title exists and is linked to "General" and to every non-empty sub-category; records and existing ratings are untouched, new rating rows start at the baseline, and nothing present is lost |
| CriteriaStore.ItemRated | critic/src/critic_sqlite/new_criterion_item.rs:20-32 | when ratings matched the associations before a save they still do after it, so the title has a rating in the group of "General" and of every linked sub-category |
| CriteriaStore.SavedIsFixed | critic/src/critic_sqlite/new_criterion_item.rs:20-32 | a store that already holds the title and its links is left alone by every statement of the save |
| CriteriaStore.SaveIdempotent | critic/src/critic_sqlite/new_criterion_item.rs:20-32 | saving the same item twice leaves the store as one save does |
| CriteriaStore.Connection.ExecuteInOrder | critic/src/critic_sqlite/match_result.rs:20-37 | the statements are sent in order up to the first rejected one, whose error is returned; otherwise the result is their combined effect |
| CriteriaStore.Connection.Transaction | critic/src/critic_sqlite/match_result.rs:6-41 | all or nothing: it returns 1 with the store equal to the statements' effect exactly when nothing is rejected; otherwise the error, with the store unchanged |
| CriteriaStore.Connection.SaveMatchResult | critic/src/critic_sqlite/match_result.rs:6-41 | `MatchResult::save` sends the insert, the update of `a`, the update of `b` and the commit in that order, is all or nothing, and returns 1 on success |
| CriteriaStore.Connection.SaveNewCategoryItem | critic/src/critic_sqlite/new_criterion_item.rs:6-36 | `NewCategoryItem::save` sends its statements and the commit in order, is all or nothing, and returns 1 on success |
| CriticData.ContestFromRow | critic/src/critic_sqlite/critic_data.rs:11-42 | the row decodes exactly when its ten columns have the expected types; columns 0-2 become `a`, 3-5 `b`, and 6-9 the criterion's group, id, name and group name; the first failing column is the error |
| CriticData.ContestRowRoundTrip | critic/src/critic_sqlite/critic_data.rs:11-42 | a contest's row reads back as that contest exactly when its ids fit in `i32` |
| CriticData.NextContest | critic/src/critic_sqlite/critic_data.rs:6-44 | no row gives `QueryReturnedNoRows`; otherwise the decoded first row |
| CriticData.Window | critic/src/critic_sqlite/critic_data.rs:56-57 | the window is `count` wide, starts at `page * count`, and page 0 starts at 0 |
| CriticData.WindowsAbut | critic/src/critic_sqlite/critic_data.rs:56-57 | each page's window starts where the previous one ends |
| CriticData.RankInOneWindow | critic/src/critic_sqlite/critic_data.rs:56-57 | with a non-zero page size, a rank lies in a page's window if and only if that page is the rank divided by the page size |
| CriticData.GroupParam | critic/src/critic_sqlite/critic_data.rs:59-63 | the empty group name binds NULL (no filter); any other name binds itself |
| CriticData.TopParams | critic/src/critic_sqlite/critic_data.rs:56-63 | the query binds the filter, the first rank and the last rank, in that order |
| CriticData.Trunc | critic/src/critic_sqlite/critic_data.rs:68 | truncation toward zero: within one of its argument, toward zero |
| CriticData.F32AsI32 | critic/src/critic_sqlite/critic_data.rs:68 | the cast truncates toward zero and saturates at the bounds of `i32` |
| CriticData.TopRowFromRow | critic/src/critic_sqlite/critic_data.rs:66-74 | the row decodes exactly when column 2 is numeric and columns 0 and 1 are text; the rating column is read first |
| CriticData.DecodeRows | critic/src/critic_sqlite/critic_data.rs:77-80 | one decoded row per result row, in result order |
| CriticData.Top | critic/src/critic_sqlite/critic_data.rs:46-83 | a failing query is its error; otherwise the result has exactly the decoded rows, in query order |
| Terminal.SelectNext | critic-term/src/app/top_tab.rs:92 | with nothing selected the first row is selected; otherwise the selection moves down one, saturating |
| Terminal.SelectPrevious | critic-term/src/app/top_tab.rs:89 | with nothing selected the last row is selected (`usize::MAX` until rendered); otherwise the selection moves up one, stopping at 0 |
| Terminal.Clamp | critic-term/src/app/top_tab.rs:67-68 | rendering leaves no selection in an empty list and a selection inside a non-empty one; an in-range selection is kept |
| Terminal.SelectLastRendered | critic-term/src/app/title_tab.rs:386 | `select_last` selects the last row of a non-empty list once rendered |
| Terminal.MovesRendered | critic-term/src/app/top_tab.rs:88-93 | after rendering, moving down stops at the last row, moving up stops at the first, and moving up from no selection reaches the last row |
| Rate.ArrowSelection | critic-term/src/app/rate.rs:174-185 | exactly the four arrow keys select something: Up skips, Down is equal, Left and Right are the cards |
| Rate.ScoreOf | critic-term/src/app/rate.rs:190-194 | Left saves 1, Right 0, Equals one half; skipping or nothing saves nothing; every saved score is 0, one half or 1 |
| Rate.MatchFor | critic-term/src/app/rate.rs:31-43 | the saved judgment carries the contest's `a` and `b` ids, the criterion's group and id, the score and `calc_change` of the two ratings |
| Rate.RightIsSwappedLeft | critic-term/src/app/rate.rs:191-192 | choosing the right card is choosing the left card of the swapped contest, with the two changes exchanged |
| Rate.SavedChangeBounded | critic-term/src/app/rate.rs:36-43 | every saved change is within the K-factor, and choosing a card never lowers the chosen contestant |
| Rate.RateWidget.HandleKey | critic-term/src/app/rate.rs:172-204 | arrows only set the selection; other keys change nothing; confirming saves the selected score's judgment, or nothing, and then shows the next contest with nothing selected; a failed save or failed `next_contest` returns the error and keeps contest and selection |
| TopTab.TopRowsOf | critic-term/src/app/top_tab.rs:136-142 | a page of 30 ranks; a failing query shows as an empty page, otherwise one row per result row |
| TopTab.TopRows | critic-term/src/app/top_tab.rs:136-142 | `top_rows` returns that page |
| TopTab.PageBefore | critic-term/src/app/top_tab.rs:97 | the previous page, saturating at 0 |
| TopTab.PageAfter | critic-term/src/app/top_tab.rs:108 | the next page, saturating at the largest `usize` |
| TopTab.ToggledFilter | critic-term/src/app/top_tab.rs:119-125 | Enter without a filter filters on the selected row's group (or stays unfiltered with no selection); Enter with a filter clears it |
| TopTab.TopWidget.constructor | critic-term/src/app/top_tab.rs:24-35 | a new screen shows page 0 of the unfiltered ranking with the first row selected |
| TopTab.TopWidget.HandleKey | critic-term/src/app/top_tab.rs:86-133 | Up and Down move only the selection; Left and Right move to the adjacent page only when it is non-empty, otherwise nothing changes; Enter toggles the filter, resets to page 0 and reloads even when the reload is empty; the rows shown always remain the current page under the current filter |
| TitleTab.AllTitles | critic-term/src/app/title_tab.rs:478-484 | a failing query shows as no titles |
| TitleTab.GroupsByTitle | critic-term/src/app/title_tab.rs:486-492 | a failing query shows as no groups |
| TitleTab.UsizeAsI32 | critic-term/src/app/title_tab.rs:291 | `usize as i32` keeps small values and otherwise wraps modulo 2^32 into `i32` |
| TitleTab.Membership | critic-term/src/app/title_tab.rs:297-300 | `cur[i]` holds exactly when the i-th group is among the title's groups |
| TitleTab.Flip | critic-term/src/app/title_tab.rs:416 | the selected mark flips and nothing else changes |
| TitleTab.FlipTwice | critic-term/src/app/title_tab.rs:414-417 | flipping twice restores the marks |
| TitleTab.DiffRequests | critic-term/src/app/title_tab.rs:423-444 | at most one request per position |
| TitleTab.DiffSound | critic-term/src/app/title_tab.rs:423-444 | each request of a save is the request for a position where `cur` and `edit` differ: add when `edit` is set, remove otherwise, for that group |
| TitleTab.DiffComplete | critic-term/src/app/title_tab.rs:423-444 | every differing position has its request |
| TitleTab.DiffCount | critic-term/src/app/title_tab.rs:423-428 | there are exactly as many requests as differing positions, and none when nothing was toggled |
| TitleTab.ApplyOneMore | critic-term/src/app/title_tab.rs:423-445 | applying one more request applies it to the result of the earlier ones |
| TitleTab.DiffMakesEdit | critic-term/src/app/title_tab.rs:423-445 | with distinct group ids, applying the requests to the title's groups as `cur` marks them leaves exactly the groups `edit` marks |
| TitleTab.DiffUntouched | critic-term/src/app/title_tab.rs:423-445 | a group outside the editor keeps its membership |
| TitleTab.DiffGrows | critic-term/src/app/title_tab.rs:423-429 | the requests for a prefix of the positions are a prefix of all the requests |
| TitleTab.DiffBefore | critic-term/src/app/title_tab.rs:423-429 | the requests before a differing position are a proper prefix of all requests |
| TitleTab.DiffStep | critic-term/src/app/title_tab.rs:423-429 | one more position adds its request exactly when it differs |
| TitleTab.Position | critic-term/src/app/title_tab.rs:448 | the first group with the given id, or none when no group has it |
| TitleTab.DeleteSelectionRepaired | critic-term/src/app/title_tab.rs:382-391 | after a delete, the old index is kept if in range, else the last title is selected, and an empty list has no selection |
| TitleTab.TitleWidget.constructor | critic-term/src/app/title_tab.rs:61-80 | a new screen lists the loaded titles and the groups of the first title (of the id `i32::MAX` when there is none), with the first title and first group selected |
| TitleTab.TitleWidget.OpenGroupEditor | critic-term/src/app/title_tab.rs:290-313 | `e` opens the editor with `cur` and `edit` both marking the title's current groups, `id` the selected index as `i32`, and the first group selected |
| TitleTab.TitleWidget.SaveGroupChanges | critic-term/src/app/title_tab.rs:423-445 | the requests go out one transaction each, in order; the first rejected one stops the loop with its error, and the earlier ones stay committed |
| TitleTab.TitleWidget.HandleEditGroupsKey | critic-term/src/app/title_tab.rs:400-470 | Esc returns to `Group` without writing; Enter or Space flips only the selected mark; Up and Down move the selection; Ctrl+S sends exactly the differing requests, then reloads the groups and reselects as the source does; a failed request keeps the editor and its selection; every key other than Ctrl+S keeps the group selection, and keys the editor does not handle change nothing |
| TitleTab.TitleWidget.HandleDeleteKey | critic-term/src/app/title_tab.rs:372-399 | `y` deletes the title, reloads the titles, repairs the selection (kept as it was when no title is left) and returns to `Title`; a failed delete returns its error and changes nothing, selections included; Esc or `n` returns without deleting and keeps both selections; other keys change nothing |

## Left out

- Floating point: ratings, scores and changes are `real`, and `f32` precision is not
  modelled.
- Elo.CalcChange: the expected score `1 / (1 + 10^((b - a) / 400))` is the parameter
  `expected`. This is because `powf` has no exact model over `real`. Properties that need
  the expected score to lie in (0, 1) or to be complementary take that as a precondition.
- Rate.MatchFor: the source's `elo_change` is a pair of `f32` holding rounded values. Here
  it is a pair of integers.
- CriticData.F32AsI32: NaN, which Rust casts to 0, is not a `real` and is not modelled.
- The SQL text of the second-generation store is not part of this model. This covers
  `add_contest_result.sql`, `update_elo.sql`, `ins_entry.sql`, `ins_entry_criterion.sql`,
  `next_contest.sql` and `top_criteria.sql`. Their effects are assumed:
  - the record insert appends one record;
  - the rating update adds the change to an existing (title, group) rating and does
    nothing when there is none;
  - the entry and link inserts insert only if absent;
  - a new link creates the rating row of its title in its criterion's group at 1000 when
    there is none, so that a rating exists exactly when its association does.
- CriteriaStore.Apply: which rating row a link belongs to (the title's id and the
  criterion's group) is resolved by tables this model does not hold; it is the store's
  `ratingOf` map. A link whose rating row cannot be resolved adds no rating.
- Sqlite.Stored: only integer literals are converted. Under NUMERIC affinity SQLite also
  converts real literals, hexadecimal integers and numbers padded with spaces; those stay
  TEXT here. An integer beyond 64 bits is the exact `real`, not the nearest double.
- Sqlite.AffinityOf: declared types are matched as written, without case folding.
- CriteriaStore: `next_contest` and `top` of the second-generation store take the
  engine's answers as parameters, so their selection logic is not modelled.
- Matchmaking.NextContest: `ORDER BY RANDOM()` is the parameter `pick`. Ties in
  `ORDER BY elo_distance LIMIT 1` go to the first minimiser in join order; the contract
  only promises some minimiser.
- Transactions: rollback of an uncommitted transaction when it is dropped is assumed, not
  derived. The model keeps the committed state unchanged on every error path.
- The engine's own failures (disk, lock, I/O) are the fault oracle, not a model of their
  causes.
- Panics on `expect` and `unwrap` become preconditions:
  - `all_groups` succeeding;
  - a selected title on `e` and `y`;
  - every `top` row decoding;
  - the selected index being in range where the source indexes with it.
- The `MatchResult` implementation at critic/src/critic_sqlite/mod.rs:197-223 is not
  modelled. It uses fields and a column that match neither `dto::MatchResult` nor the
  `match_history` schema. `MatchResult::save` of `match_result.rs` is modelled instead.
- `dto::Contest` in critic/src/dto/contest.rs has a `category` field. The model follows
  the `criterion` layout that `critic_data.rs` builds, and gives the first-generation
  query its own `CategoryContest`.
- Rate.RateWidget.HandleKey: the source opens the store afresh on every confirmation.
  Here the store is a connection the widget holds, and `next_contest`'s answer is a
  parameter.
- If `next_contest` fails after a successful save, the save stays committed. Only the
  error is returned.
- `RateWidget::new`, which builds the first contest from the store, is not modelled.
- Rendering, layout, styles, crossterm event reading and the app's event loop are not
  modelled. Rendering's effect on a selection is `Terminal.Clamp`. The key handlers do not
  apply it, just as ratatui does not until the next frame.
- The title screen is modelled only in its group editor and delete prompt, plus `e` in
  `Group` mode:
  - the other keys of `Group` mode (Up, Down, Left) are list navigation and a mode switch;
  - `Title`, `NewTitle` and `EditTitle` edit text inputs and issue single-statement
    requests.
- TitleTab.TitleWidget.HandleEditGroupsKey: the reselection after a save is modelled as
  written. It compares group ids with the editor's `id` (a title index) and stores a
  group id as the new mode's title id.
- TitleTab.TitleWidget.SaveGroupChanges is not atomic, and neither is the model: each
  request is its own transaction, so a failure leaves the earlier ones applied.
- The thin CRUD wrappers (`title.rs`, `group_criteria.rs`, `criterion.rs`), opening the
  store and creating the schema, the seed data and the `welcome` and `group` screens are
  not part of this model.

## Findings

| source | as written | input that shows it | evidently intended | confidence | as-written member | corrected member |
|---|---|---|---|---|---|---|
| critic/src/critic_sqlite/mod.rs:20 | `name STRING` and `value STRING` give the columns NUMERIC affinity, so a name that is an integer literal is stored as an INTEGER, which `r.get::<String>` at lines 117, 121 and 125 rejects; "01984" and "1984" are also the same entry under `UNIQUE(name)` | titles "1984" and "2001" saved in the category "Novels", then `next_contest` | names stored as TEXT (`name TEXT`, `value TEXT`), so every saved title can be proposed | not executed | Matchmaking.NumericTitlesUnreadable | Matchmaking.TextSchemaReadable |

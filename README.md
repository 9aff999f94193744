# League standings, honours and charts — a Dafny model

The modelled application is a React front end for an online football
management league. It reads spreadsheets of final league tables (one row per
club, season and division), a sheet of play-off winners and two honours
sheets (club and manager trophies). From them it derives:

- the status of each table position (champion, cup and shield places,
  promotion, play-offs, relegation, the sack zone) and the tags, badge and
  row colour that show it;
- normalised club names and the keys under which play-off winners are
  looked up;
- filtered and sorted league tables, leader boards (titles, promotions,
  relegations, sackings), all-time records, and the points needed to reach
  each marker position per division;
- per-manager career profiles;
- the honours list with its filters, leader boards and season table;
- the season-by-season points charts.

This project models that logic as Dafny functions, methods and lemmas:

| module | file | what it covers |
|---|---|---|
| `Base`, `Text`, `JsInt`, `Sorting` | `base.dfy`, `text.dfy`, `jsint.dfy`, `sorting.dfy` | The JavaScript building blocks the source relies on: `filter`, `map`, `Set`/`Map` insertion order, `trim`, `toLowerCase`, `split`, `parseInt` (NaN is `None`), and `Array.prototype.sort` (a stable insertion sort by an integer comparator, NaN read as 0). |
| `Classify` | `classify.dfy` | The position predicates. |
| `Presentation` | `presentation.dfy` | Tags, badge and row colour. |
| `Names` | `names.dfy`, `names_examples.dfy` | `normDiv`, `normalizeName`, the play-off keys, `stripPrefixes` and the profile lookup. |
| `Schema` | `schema.dfy` | Header lookup and record building. |
| `WinnerSet` | `winnerset.dfy` | The play-off winners parser. |
| `Tally` | `tally.dfy` | Counting into a `Map`. |
| `Aggregates` | `aggregates.dfy` | `getFilteredData`, `leaders` and `buildRecords`. |
| `Thresholds` | `thresholds.dfy` | `computeThresholds` and `thresholdHistory`. |
| `Managers` | `managers.dfy` | Manager profiles. |
| `Honours`, `WinnersView` | `honours.dfy`, `winnersview.dfy` | The honours page. |
| `ChartPivot` | `chartpivot.dfy` | The chart data. |

The source updates `Map`s, `Set`s and arrays step by step in loops. Those
loops are Dafny methods whose local `map`, `set` and `seq` variables follow
the same steps. Each method is proved against a specification function, and
the properties the application promises are lemmas about those functions.
The source has no classes of its own, so the model has none either.

Text is `seq<char>`. Integers are unbounded (see "Left out" for what that
drops).

## Model

| member | source | states |
|---|---|---|
| Text.Trim | src/Winners.js:5 | `trim` leaves no JavaScript white space at either end and never lengthens the text |
| Text.TrimIsInnerPiece | src/App.js:213 | what `trim` keeps is one contiguous piece of the cell, and only white space surrounds it |
| Text.TrimEmptyIffBlank | src/App.js:476-477 | a trimmed field is empty exactly when the field is all white space |
| Text.TrimIdempotent | src/Winners.js:5 | trimming twice gives the same as trimming once |
| Text.ToLower | src/App.js:205 | lower-casing maps each character on its own and keeps the length |
| Text.ToLowerNoCapitals | src/App.js:205 | no ASCII or Latin-1 capital is left, each capital becomes its small letter, and every other character is kept |
| Text.ToLowerIdempotent | src/Winners.js:6 | lower-casing twice gives the same as lower-casing once |
| Text.FirstDigitRun | src/App.js:50 | the match of `/\d+/`: none exactly when there is no digit, otherwise the leftmost run, followed by no further digit |
| Text.SplitOnPair | src/App.js:500 | two pieces joined by a separator that neither contains split back into those pieces |
| Text.SplitAtBar | src/Winners.js:153 | `a|b` is injective in its parts when the first part has no bar |
| Text.Tokens | src/ManagerProfiles.js:49 | `split(" ").filter(Boolean)` yields non-empty tokens without spaces |
| Text.SplitOnJoin | src/ManagerProfiles.js:49 | joining the pieces of `split(c)` with `c` gives back the string |
| Text.SplitOnJoined | src/App.js:500 | any non-empty list of pieces without `c`, joined by `c`, splits back into exactly those pieces |
| Text.TokensOfJoin | src/ManagerProfiles.js:49-57 | non-empty tokens without spaces, joined by single spaces, are split back into exactly those tokens |
| Text.TrimPadded | src/App.js:61 | trailing white space does not change what `trim` keeps |
| Text.Utf16Length | src/ManagerProfiles.js:56 | a string's JavaScript `length` is between its code-point count and twice that |
| JsInt.ParseDecimalRoundTrip | src/Charts.js:38 | `parseInt` of the decimal rendering of any integer is that integer |
| JsInt.ParseIntNaN | src/App.js:21 | a string without a digit parses to NaN, so `numeric` gives 0 |
| JsInt.NumericLooseIgnores | src/ManagerProfiles.js:9-12 | the profiles' `numeric` ignores every character other than a digit or `-` |
| JsInt.NumericLooseDecimal | src/ManagerProfiles.js:9-12 | the profiles' `numeric` reads back every integer's decimal rendering |
| Sorting.SortBy | src/App.js:356 | sorting returns a permutation of its input, whatever the comparator |
| Sorting.SortBySorted | src/App.js:356 | with a consistent comparator the sorted result is ordered |
| Sorting.SortByStable | src/App.js:356 | the sort is stable: elements tied with any element keep their input order |
| Sorting.StrCmpConsistent | src/App.js:358 | code-point order, the model of `localeCompare`, is a consistent comparator |
| Base.Distinct | src/App.js:326 | `[...new Set(s)]` is never longer than `s` (its contents are stated by `DistinctMembers` and `DistinctNoDups`) |
| Base.FirstSeenDistinct | src/App.js:474-480 | the key order of a `Map` filled element by element is the distinct keys in order of first occurrence |
| Base.GroupInto | src/App.js:474-480 | filling a `Map` from key to list groups the admitted elements under their keys, in input order |
| Base.IndexLast | src/App.js:503 | the `set` loop builds `KeyedMap`: for each key, the last element with that key, and no other key |
| Base.KeyedMapLast | src/App.js:503 | a key is in the map exactly when some element carries it, and its value is the last such element |
| Base.DistinctMembers | src/App.js:326 | an element is in `[...new Set(s)]` exactly when it is in `s` |
| Base.DistinctNoDups | src/App.js:326 | `[...new Set(s)]` has no repeated element |
| Base.LastWhereIsLast | src/Charts.js:38 | the value stored for a key comes from the last element that writes it |
| Base.IndexWhere | src/Winners.js:71 | `findIndex` gives the first matching index, or -1 exactly when nothing matches |
| Base.Take | src/Winners.js:162 | `slice(0, n)` is the prefix of length `min(n, length)` |
| Classify.ClassificationTable | src/App.js:23-46 | on numeric division `d` and position `p`: champion iff p = 1; cup iff d = 1 and 2 ≤ p ≤ 4; shield iff d = 1 and 5 ≤ p ≤ 10; auto-promotion iff 2 ≤ d ≤ 5 and p ∈ {2, 3}; play-offs iff 2 ≤ d ≤ 5 and 4 ≤ p ≤ 7; relegation iff 1 ≤ d ≤ 4 and 17 ≤ p ≤ 20; sacking iff 18 ≤ p ≤ 20 |
| Classify.UnparsablePositionHasNoStatus | src/App.js:23-46 | a position that parses to NaN satisfies no predicate |
| Classify.BlankPositionHasNoStatus | src/App.js:23-46 | an empty position reads as 0 and satisfies no predicate |
| Classify.NoPromotionOutsideLowerDivisions | src/App.js:28-37 | outside divisions 2 to 5 there is neither automatic promotion nor a play-off place |
| Classify.StatusBandsDisjoint | src/ManagerProfiles.js:13-25 | the title, cup, shield, promotion, play-off and relegation bands are disjoint; in divisions 1 to 4 the sack zone lies inside the relegation zone |
| Presentation.TagsOf | src/App.js:80-127 | the flagged tags, each exactly when its flag is set, in strictly increasing rank order |
| Presentation.TagsOfPushed | src/App.js:80-127 | after the first `k` pushes the list holds exactly the flagged tags of rank below `k`, in rank order |
| Presentation.TeamTags | src/App.js:80-127 | a row has each tag exactly when its rule holds; the winner tag needs the set to exist and hold the row's key; the order is fixed (Champions, Cup, Shield, Auto-Promoted, Playoffs, Relegated, Auto-Sacked, Playoff Winner) with no repeats |
| Presentation.GetTeamTags | src/App.js:80-127 | the pushing loop returns exactly `TeamTags` |
| Presentation.BadgePrecedence | src/App.js:129-140 | each badge appears exactly when its rule holds and no rule above it does (sacked, relegated, champion, promoted or play-off winner, cup, shield, plain) |
| Presentation.BadgeBackedByTag | src/App.js:129-140 | every badge other than the plain one is backed by a tag the row carries; a row without tags gets the plain badge |
| Presentation.BadgeOfBacked | src/App.js:129-140 | on the flags alone: a badge other than the plain one names a tag that is flagged, and no flag at all gives the plain badge |
| Presentation.RowStylePrecedence | src/App.js:142-149 | the row colour follows its own precedence: champion, promotion, relegation, play-offs, sacking, white |
| Presentation.BadgeAndRowDisagreeInSackZone | src/App.js:129-149 | in places 18 to 20 of divisions 1 to 4 the badge says "sacked" while the row is coloured "relegated" |
| Presentation.DivisionOnePosition19 | src/App.js:129-149 | division 1, position 19 gets the sacking badge on a relegation-coloured row |
| Names.NormDiv | src/App.js:49-52 | `normDiv` is the first run of digits, maximal and non-empty, or the trimmed input when there is no digit |
| Names.NormDivIdempotent | src/ManagerProfiles.js:27-34 | `normDiv` and `seasonNorm` are idempotent |
| Names.DropParenGroups | src/App.js:55 | after the bracket step no `(` is followed by a `)`, and text without `)` is left unchanged |
| Names.DropParenAppend | src/App.js:55 | text without `)` appended at the end passes through the bracket step unchanged |
| Names.StopWordAt | src/App.js:56 | a stop-word match at the front is a listed stop word, up to ASCII case |
| Names.StopWordAtFirst | src/App.js:56 | the first stop word, in alternation order, that matches as a whole word at the front is the one removed |
| Names.StopWordAtNone | src/App.js:56 | when no stop word matches as a whole word at the front, nothing is removed there |
| Names.NoStopAt | src/App.js:56 | nothing is removed at a character that no stop word contains |
| Names.WordRunKept | src/App.js:56 | inside a word there is no `\b`, so no stop word is removed there |
| Names.DropStopWordsSplit | src/App.js:56 | the stop-word step works separately on the two sides of a non-word character that no stop word contains |
| Names.DropStopWordsSpace | src/App.js:56 | a space is kept, and what follows it starts after a word boundary |
| Names.DropUpperFc | src/App.js:56 | "FC" alone becomes one space, the match ignoring case |
| Names.DropUpperAfc | src/App.js:56 | "AFC" alone becomes one space: "fc" and "cf" fail and "afc" matches |
| Names.FoldDiacritics | src/App.js:57-58 | no diacritic is left, and text made only of characters that folding keeps is unchanged |
| Names.FoldAppend | src/App.js:57-58 | folding works character by character |
| Names.CollapseNonAlnum | src/App.js:60 | only `[a-z0-9]` and single spaces remain, and the first character is kept when it is a letter or digit and becomes a space otherwise |
| Names.CollapseKeepsAlnum | src/App.js:60 | the letters and digits of the result are exactly those of the input, in order |
| Names.CollapseFixed | src/App.js:60 | text of letters, digits and single spaces comes out unchanged |
| Names.CollapseIdempotent | src/App.js:60 | collapsing twice gives the same as collapsing once |
| Names.CollapseAppendNonAlnum | src/App.js:60 | appending characters outside `[a-z0-9]` adds at most one trailing space |
| Names.NormalizeName | src/App.js:53-61 | a normalised name holds only `[a-z0-9]` and single interior spaces, with none at either end |
| Names.NormalizeNameIgnoresTail | src/App.js:53-61 | appending a space and a tail that the stop-word step turns into spaces does not change the normalised name |
| Names.NormalizeNameIgnoresFc | src/App.js:53-61 | a trailing " FC" does not change the normalised name |
| Names.NormalizeNameIgnoresAfc | src/App.js:53-61 | a trailing " AFC" does not change the normalised name |
| Names.PlayoffWinnerKeyIgnoresSuffix | src/App.js:62-63 | a winner with or without a trailing " FC" or " AFC" has the same key |
| Names.PlayoffWinnerKeyFields | src/App.js:62-63 | with no `|` in season or division, two keys are equal iff trimmed seasons, normalised divisions and normalised names all are |
| Names.LeadingDroppable | src/ManagerProfiles.js:48-58 | at most two leading tokens are dropped, each in the drop set or at most three UTF-16 units long, and the dropping stops at the first one that is neither |
| Names.StripPrefixed | src/ManagerProfiles.js:48-58 | when the tokens after the dropped ones, joined and trimmed, are not empty, they are the result; otherwise the name is kept; the result is empty only for an empty name |
| Names.StripDropsFirst | src/ManagerProfiles.js:54-57 | of a two-word name, a droppable first word is removed when the second is not droppable |
| Names.StripKeepsFirst | src/ManagerProfiles.js:54-57 | a two-word name whose first word is neither listed nor at most three characters long is kept whole |
| NameExamples.StripFcPorto | src/ManagerProfiles.js:54-57 | "FC Porto" becomes "Porto": "FC" has at most three characters |
| NameExamples.StripRealMadrid | src/ManagerProfiles.js:50-56 | "Real Madrid" is kept: the list is lower-case and "Real" has four characters |
| NameExamples.StripFcOnly | src/ManagerProfiles.js:57 | "FC" is kept, since dropping it would leave nothing |
| Names.StripPrefixes | src/ManagerProfiles.js:48-58 | the `while` loop computes `StripPrefixed` |
| Names.KeyExactFields | src/ManagerProfiles.js:60-64 | with no `|` in season or division, two profile keys are equal iff the seasons' first digit runs, the normalised divisions and the normalised names all are |
| Names.IsPlayoffWinnerBySeasonRun | src/ManagerProfiles.js:66-72 | no set means no play-off winner; the lookup sees the season only through its first digit run |
| NameExamples.ClubeLosesClub | src/App.js:56 | the word boundary is ASCII-based, so "club" is removed from "Clubé" |
| NameExamples.NormalizeNameNotIdempotent | src/App.js:53-61 | `normalizeName("Fç")` is "fc", and normalising that again gives "" |
| NameExamples.AccentHidesStopWord | src/App.js:56-58 | "Fc" normalises to "" but "Fç" to "fc": accents are removed only after the stop words |
| NameExamples.NormalizeAtleticoAccent | src/App.js:53-61 | "Atlético" normalises to "atletico" |
| NameExamples.NormalizeAtleticoPlain | src/App.js:53-61 | "Atletico" normalises to "atletico" |
| NameExamples.AtleticoKeysAgree | src/App.js:62-63 | "Atlético" and "Atletico FC", as winners of division 3 in season 12, have the same key |
| Schema.IndexOf | src/App.js:208 | `indexOf` gives the first index holding the value, or -1 exactly when it is absent |
| Schema.NormaliseHeaders | src/App.js:205 | each header is compared trimmed and lower-cased |
| Schema.FirstAliasPresent | src/App.js:206-212 | the first alias, in argument order, that is a header |
| Schema.Find | src/App.js:206-212 | `find` gives -1 exactly when no alias is a header; otherwise the leftmost column holding the first alias present |
| Schema.Get | src/App.js:213 | `get` gives "" for a negative or missing column, otherwise the trimmed cell |
| Schema.StartDate | src/App.js:240-242 | the start date is the month, the year, or both joined by one space |
| Schema.ParseStandings | src/App.js:203-258 | no sheet means no records; otherwise one record per non-empty row after the header, in order |
| Schema.NonEmptyRowsKept | src/App.js:237-238 | every non-empty row yields a record, even one with a blank or missing season or team |
| Schema.MissingColumnsReadEmpty | src/App.js:216-219 | without a "season" header every season reads as ""; without "team" or "club" every team does |
| Schema.SeasonReadFromColumn | src/App.js:216 | the season is the trimmed cell under the first "season" header, or "" past the end of the row |
| Schema.AliasOrderWins | src/App.js:217 | aliases win by argument order: with headers "Div" and "Division", the division is read from the second column |
| WinnerSet.PlayoffMatchAt | src/App.js:303 | a play-off match captures a division digit from 2 to 5 |
| WinnerSet.PlayoffMatchOf | src/App.js:303 | on "division", white space, a character, white space and a tail: a match exactly when the character is 2 to 5 and the tail starts with "playoff" or "play-off", capturing that character |
| WinnerSet.PlayoffDivisionAfter | src/App.js:294 | characters without a "d" in front of a match do not change the captured division |
| WinnerSetExamples.SpacedHyphenated | src/App.js:294 | "division 3 play-off" captures 3 |
| WinnerSetExamples.DoubleSpaceNoSpace | src/App.js:294 | "division  4playoff" captures 4 |
| WinnerSetExamples.DivisionOneIsNoPlayoff | src/App.js:294 | "division 1 playoff" does not match |
| WinnerSetExamples.MatchInsideHeader | src/App.js:294 | "men's division 5 playoff" captures 5 |
| WinnerSet.PlayoffColumns | src/App.js:292-294 | the play-off columns are exactly the headers that match `division\s*([2-5])\s*play-?off` |
| WinnerSet.WinnersSetOf | src/App.js:287-290 | no set exactly when the sheet is empty or has no header that is exactly "season" after trimming and lower-casing |
| WinnerSet.CollectColumnKeys | src/App.js:300-306 | the inner loop adds one key per play-off column with a winner |
| WinnerSet.CollectWinnerKeys | src/App.js:297-307 | the outer loop skips rows without a season and collects the rest |
| WinnerSet.ParseWinners | src/App.js:286-308 | the parsing code computes `WinnersSetOf` |
| WinnerSet.WinnerKeysMembers | src/App.js:297-307 | a key is collected iff some row with a season has a winner under some play-off column |
| WinnerSet.WinnersSetKeysNamePlayoffs | src/App.js:287-308 | every key is built from non-empty season and winner cells and a division from 2 to 5 |
| WinnerSet.WinnerIsRecorded | src/App.js:297-307 | a winner under a play-off header, in a row with a season, is in the set under that season and division |
| Tally.CountKeys | src/App.js:381-385 | the `Map` loop leaves, in key order, each non-empty key with its number of occurrences |
| Tally.CountBump | src/App.js:383 | one `set(k, (get(k) || 0) + 1)` step takes the key order and counts of a prefix to those of the prefix extended by `k` |
| Tally.CountedOccurrences | src/App.js:381-385 | a key has a count exactly when it occurs, and the count is its number of occurrences |
| Tally.KeysOfFacts | src/App.js:381-382 | the counted keys are non-empty, and every item's non-empty key is among them |
| Tally.CountBy | src/App.js:379-389 | `countBy` returns the map's entries in key order, then sorted |
| Tally.OccurrencesOfKeys | src/App.js:381-385 | a non-empty key occurs among the counted keys once per item that carries it |
| Tally.CountOfEntries | src/App.js:379-389 | every entry has a non-empty key and counts exactly the items with that key, so none counts zero |
| Tally.CountOfComplete | src/App.js:379-389 | every non-empty key of an item has an entry |
| Tally.CountOfKeysDistinct | src/App.js:379-389 | no key has two entries |
| Tally.CountOfSum | src/App.js:379-389 | the counts add up to the number of items with a non-empty key |
| Tally.CountOfOrdered | src/App.js:388 | entries are by count, largest first, and equal counts come in strictly increasing key order |
| Tally.SortedDistinct | src/Winners.js:125-128 | a set sorted by text order holds each string once, in strictly increasing order |
| Aggregates.SortOrderOf | src/App.js:354-371 | the `switch` picks points, team, manager or division by name, and position for any other name |
| Aggregates.FilteredDataSelects | src/App.js:346-353 | the result is a permutation of the rows that pass the season and division filters, with the empty filter selecting everything |
| Aggregates.FilteredDataComplete | src/App.js:346-353 | every row passing the filters is in the result |
| Aggregates.FilteredByPointsOrdered | src/App.js:355-356 | by points: non-increasing `numeric` points |
| Aggregates.FilteredByPointsStable | src/App.js:355-356 | rows with equal points keep their input order |
| Aggregates.FilteredByTeamOrdered | src/App.js:357-358 | by team: ascending team names |
| Aggregates.FilteredByManagerOrdered | src/App.js:359-360 | by manager: ascending manager names |
| Aggregates.FilteredByPositionOrdered | src/App.js:366-370 | by position: ascending, when every selected position parses |
| Aggregates.FilteredByDivisionOrdered | src/App.js:361-365 | by division, then position within a division, when every selected division and position parses |
| Aggregates.Promotions | src/App.js:395-407 | the promotions loop pushes exactly the promoted rows, in order |
| Aggregates.PromotionsAreRows | src/App.js:396-407 | a row counts as a promotion iff it goes up automatically or is a play-off place whose key is in the winners set; with no set, only automatic promotions count |
| Aggregates.ComputeLeaders | src/App.js:391-425 | the leaders code returns the eight leader boards of `LeadersOf` |
| Aggregates.TitlesCounted | src/App.js:392-413 | a team's title count is the number of its first-place rows |
| Aggregates.PickRecords | src/App.js:458-469 | the `seen`/`break` loop keeps the first row of each non-empty key, up to 50 |
| Aggregates.BuildRecords | src/App.js:427-471 | `buildRecords` computes `RecordsOf` |
| Aggregates.FirstPerKeyKeys | src/App.js:460-467 | exactly the non-empty keys of the ranked rows get a pick |
| Aggregates.FirstPerKeyGrows | src/App.js:458-467 | one more ranked row only appends to the picks made so far |
| Aggregates.FirstPerKeyNonEmpty | src/App.js:460-462 | no pick has an empty group key |
| Aggregates.FirstPerKeyDistinct | src/App.js:460-467 | no two picks share a key |
| Aggregates.FirstPerKeySorted | src/App.js:443-467 | picking keeps the comparator's order |
| Aggregates.RecordsKeys | src/App.js:427-471 | at most 50 records, with distinct non-empty group keys |
| Aggregates.RecordsAreFirsts | src/App.js:443-467 | each record is the best-ranked row of its group |
| Aggregates.RecordsOrdered | src/App.js:443 | record values are non-decreasing for "asc" and non-increasing otherwise |
| Aggregates.RecordsCoverGroups | src/App.js:466-469 | fewer than 50 records only when every non-empty group key already has its record |
| Thresholds.GroupBySeasonDivision | src/App.js:474-480 | grouping by `season|division` keeps key insertion order; each group is non-empty and holds its rows in input order |
| Thresholds.SeasonDivKeySplits | src/App.js:478 | with no `|` in season or division, the key splits back into the trimmed season and division |
| Thresholds.BuildByPos | src/App.js:502-503 | `byPos` holds, for each parsed position, the last row at that position |
| Thresholds.DivPartOfKey | src/App.js:500 | when neither the season nor the division holds a bar, `key.split("|")` recovers the trimmed season and division |
| Thresholds.Push | src/App.js:491-497 | `push` ignores an empty trimmed division and otherwise appends `numeric(pts)` to that division's list, adding the division to the key order when it is new |
| Thresholds.CollectMarkers | src/App.js:499-510 | the main loop leaves, for each marker, the accumulator of its five guarded pushes over the groups in order |
| Thresholds.MinOf | src/App.js:516 | `Math.min` is an element no greater than any other |
| Thresholds.MaxOf | src/App.js:517 | `Math.max` is an element no smaller than any other |
| Thresholds.AvgTenths | src/App.js:518 | the rounded average in tenths is within half a tenth of the exact mean |
| Thresholds.AvgTenthsBounds | src/App.js:516-518 | the average lies between the minimum and the maximum |
| Thresholds.SummarizeAcc | src/App.js:512-522 | the `summarize` loop computes `Summarize` |
| Thresholds.SummaryRow | src/App.js:512-522 | every summary row has at least one sample, its minimum, maximum and rounded average, and 10·min ≤ avg ≤ 10·max |
| Thresholds.SummaryCovers | src/App.js:514-520 | every division with points has its row |
| Thresholds.SummarizeSorted | src/App.js:521 | when every division parses, rows come in ascending division order |
| Thresholds.AccForPushed | src/App.js:499-510 | each division's list is the points of the marker rows of that division's groups, in group order |
| Thresholds.MarkerRowOrigin | src/App.js:504-509 | a marker row is an input row of its group, at the marker position, in a division passing the marker's test |
| Thresholds.ComputeThresholds | src/App.js:473-531 | `computeThresholds` computes `Thresholds` |
| Thresholds.ThresholdRow | src/App.js:473-531 | each table row summarises the points of the marker rows of its division |
| Thresholds.ThresholdRowOrigin | src/App.js:504-509 | each table row's division has a group that contributes to it; positions 3 and 7 only from divisions 2 to 5, position 16 only from divisions 1 to 4 |
| Thresholds.ThresholdCovers | src/App.js:499-520 | every contributing group of a non-empty division has its division in the table |
| Thresholds.ThresholdRowFromRow | src/App.js:473-531 | with no `|` in the data, a table row's division is the trimmed division of an input row at the marker position |
| Thresholds.ThresholdHistory | src/App.js:533-560 | `thresholdHistory` computes `Histories` |
| Thresholds.HistoryRowOrigin | src/App.js:544-558 | a history point comes from the last input row of its group at the marker position |
| Thresholds.HistoryPointOrigin | src/App.js:533-560 | each point passes its marker's division test; with no `|` in the data, it is the trimmed season, division and points of an input row at the marker position |
| Thresholds.HistoryDistinct | src/App.js:534-558 | with no `|` in the data, a marker's history has at most one point per season and division |
| Managers.ManagerListFacts | src/ManagerProfiles.js:78-83 | the manager list holds each non-empty trimmed name once, and nothing else, in strictly ascending order |
| Managers.FilteredManagersFacts | src/ManagerProfiles.js:85-90 | a name is offered iff it is a manager and its lower-cased form contains the lower-cased trimmed query; an empty query offers all |
| Managers.Aggregate | src/ManagerProfiles.js:95-126 | the loop skips rows without a manager, keeps managers in first-appearance order, and leaves each manager the profile of its rows |
| Managers.Record | src/ManagerProfiles.js:98-125 | one row creates a fresh profile for a new manager, then updates that manager's profile |
| Managers.ProfileCounts | src/ManagerProfiles.js:111-125 | one appearance per row, rows kept in order, and each honour counted once per row that earns it |
| Managers.ProfileTeams | src/ManagerProfiles.js:112 | the team set holds each team of the rows once |
| Managers.ProfileSeasons | src/ManagerProfiles.js:113 | the season set holds each normalised season of the rows once |
| Managers.FinishAll | src/ManagerProfiles.js:127-132 | the second loop finishes every profile |
| Managers.ComputeProfiles | src/ManagerProfiles.js:93-134 | `perManager` computes `ManagerProfiles` |
| Managers.ManagerRowsAre | src/ManagerProfiles.js:95-114 | a profiled manager's rows are the rows with that trimmed manager, at least one |
| Managers.ManagerProfileCounts | src/ManagerProfiles.js:93-126 | appearances count the manager's rows; titles, automatic promotions, play-off wins, relegations and sackings count the rows passing each test, none more than the appearances |
| Managers.ManagerProfileTeams | src/ManagerProfiles.js:127-131 | the team count is the number of distinct teams, at most the appearances; the teams are exactly those of the rows, strictly ascending |
| Managers.ManagerProfileSeasons | src/ManagerProfiles.js:128 | the season count is the number of distinct normalised seasons, at most the appearances |
| Managers.FinishSeasonsSorted | src/ManagerProfiles.js:131 | when every season is numeric, seasons are in ascending numeric order |
| Managers.ManagersAreProfiled | src/ManagerProfiles.js:78-134 | the manager list and the profiles have the same names |
| Managers.FirstOfferedHasProfile | src/ManagerProfiles.js:136-140 | with nothing selected, the first offered name always has a profile |
| Managers.OfferedHasProfile | src/ManagerProfiles.js:136-140 | with nothing selected, the first offered manager is shown with its own profile |
| Managers.CareerRowsSorted | src/ManagerProfiles.js:223-231 | the career table is a permutation of the rows, ordered by `numeric` season, then division, then position |
| Managers.NotesOfMembers | src/ManagerProfiles.js:234-240 | a note is in a row's list exactly when its rule holds |
| Managers.NotesOfRanked | src/ManagerProfiles.js:234-240 | filtering the fixed array keeps its order, so the notes come in strictly increasing rank |
| Managers.NotesOfFacts | src/ManagerProfiles.js:234-240 | a row's notes are exactly those that hold, each once, in the order Champions, Auto-Promoted, Playoff Winner, Relegated, Auto-Sacked |
| Managers.ChampionNotPromoted | src/ManagerProfiles.js:234-240 | no career row is noted as both champion and auto-promoted |
| Honours.FoldedMatch | src/Winners.js:21 | `find` gives a canonical name with the same `lower` form, or none exactly when no canonical name has it |
| Honours.HeaderToCompetitionCases | src/Winners.js:18-23 | a header matching a canonical name up to case and surrounding white space becomes a canonical name with its `lower` form; any other header becomes its trimmed self |
| Honours.HeaderToCompetitionIdempotent | src/Winners.js:18-23 | mapping a header twice gives the same as mapping it once |
| Honours.CanonicalFixed | src/Winners.js:20 | a canonical name maps to itself |
| Honours.FallbackFixed | src/Winners.js:22 | a header left as its trimmed self maps to itself again |
| Honours.OtherColumns | src/Winners.js:74-76 | the competition columns are every column but the season's, in ascending order |
| Honours.NormalizeTab | src/Winners.js:65-90 | `normalizeTab` computes `NormalizedTab` |
| Honours.PushRows | src/Winners.js:79-88 | the outer loop appends the honours of each row, in row order |
| Honours.PushCells | src/Winners.js:82-87 | the inner loop appends one honour per non-blank cell, in column order |
| Honours.CellHonoursExactly | src/Winners.js:82-87 | a row's columns yield exactly their non-blank cells that have a header |
| Honours.RowHonoursExactly | src/Winners.js:80-87 | an honour comes from a row exactly when its season cell is not blank and some non-blank cell with a header outside the season column gives it; the row yields as many honours as it has such cells |
| Honours.CellHonoursCount | src/Winners.js:82-86 | the competition columns of a row give as many honours as they have non-blank cells under a header |
| Honours.TabHonoursCount | src/Winners.js:79-87 | the rows give as many honours as there are non-blank competition cells in rows with a season |
| Honours.NormalizedTabNoSeason | src/Winners.js:66-71 | no rows, or no "season" header up to case and white space, yields `[]` |
| Honours.NormalizedTabExactly | src/Winners.js:65-90 | with a season column, an honour is in the output exactly when some non-blank cell outside that column, in a later row whose season cell is not blank, gives it; the output has as many honours as there are such cells |
| Honours.NormalizedTabProper | src/Winners.js:79-86 | every honour has a non-empty trimmed season and winner, and the sheet's kind |
| WinnersView.FilteredKeeps | src/Winners.js:135-147 | an honour is listed iff it is one of the rows and passes the kind, season, competition and search controls that are set |
| WinnersView.FilteredNoControls | src/Winners.js:135-147 | with no control set, every honour is listed, in order |
| WinnersView.AllCompetitionsFacts | src/Winners.js:125-128 | each competition is offered once, in strictly increasing text order |
| WinnersView.AllSeasonsFacts | src/Winners.js:130-133 | each season is offered once |
| WinnersView.AllSeasonsDescending | src/Winners.js:130-133 | when every season is a number, seasons come latest first |
| WinnersView.SeasonsToShowFacts | src/Winners.js:188-192 | at most twenty distinct seasons of the listed honours; fewer only when all of them are shown |
| WinnersView.SeasonsToShowDescending | src/Winners.js:188-192 | when every season is a number, the seasons shown come latest first |
| WinnersView.Rank | src/Winners.js:152-161 | the counting loop and sort compute `Ranking` |
| WinnersView.RankingRanked | src/Winners.js:160 | the ranking is ordered by trophies, most first, ties by winner |
| WinnersView.LbOverall | src/Winners.js:150-163 | `lbOverall` computes `Overall` |
| WinnersView.OverallFacts | src/Winners.js:150-163 | at most fifty lines, most trophies first and ties by winner, short only when the whole ranking fits |
| WinnersView.RankingCounts | src/Winners.js:152-159 | every line names the winner of some honour's pair and counts that pair's honours |
| WinnersView.RankingComplete | src/Winners.js:152-159 | every pair of the listed honours has its line |
| WinnersView.PairKeySplits | src/Winners.js:158 | with no bar in kind or winner, the key splits back into them |
| WinnersView.PairKeyInjective | src/Winners.js:154 | with no bar, two honours share a key iff they share kind and winner |
| WinnersView.RankingCountsPairs | src/Winners.js:150-163 | with no bar in the data, every line names a listed winner and counts exactly the honours of that kind and winner |
| WinnersView.LbByCompetition | src/Winners.js:165-185 | `lbByCompetition` computes `ByCompetition` |
| WinnersView.RankGroups | src/Winners.js:173-184 | one block per competition in the map's key order, then sorted |
| WinnersView.BlocksContents | src/Winners.js:173-182 | each block holds the first ten of its competition's ranking, for a competition of the rows |
| WinnersView.BlocksCover | src/Winners.js:165-185 | every competition of the listed honours has a block |
| WinnersView.BlocksOrdered | src/Winners.js:184 | blocks come in strictly increasing competition order, so no competition has two |
| WinnersView.BlockFacts | src/Winners.js:174-181 | a block has at most ten lines, ranked, and is short only when it holds every pair of its competition |
| WinnersView.CompetitionRowsKeep | src/Winners.js:167-171 | a competition's honours are exactly the listed honours of that competition |
| WinnersView.BySeasonComp | src/Winners.js:194-203 | the table has a season iff some honour has it, a competition under it iff some honour has both, and exactly those honours' winners |
| ChartPivot.BuildData | src/Charts.js:32-41 | the `Map` loop and sort compute `Pivot` |
| ChartPivot.FillSeasons | src/Charts.js:33-39 | the loop leaves the seasons in order of first appearance, with each season's line values those of its last point per line |
| ChartPivot.ValuesOfLast | src/Charts.js:35-39 | a line has a value at a season iff some point of that season is on that line, and the value comes from the last such point |
| ChartPivot.PivotSeasons | src/Charts.js:32-41 | one chart point per season of the input, each season once |
| ChartPivot.PivotValues | src/Charts.js:35-39 | each chart point carries, per line, the points of the last input point of its season and line |
| ChartPivot.PivotSorted | src/Charts.js:40 | when every season parses, points come in ascending season order |
| ChartPivot.LinesFacts | src/Charts.js:45 | the lines are the distinct `D<division>` labels, in strictly ascending code-point order |
| ChartPivot.LinesTextualOrder | src/Charts.js:45 | the order is textual: "D10" is drawn before "D2" |

## Left out

- Distinct: its own contract states only that the result is never longer
  than the input. That it holds every element once and nothing else is
  stated by `DistinctMembers` and `DistinctNoDups`, which keeps those
  quantified facts out of every proof that unfolds `Distinct`.
- Network requests, environment variables, React state, hooks, effects, hash
  routing and all rendering are left out. This covers the fetches in
  src/App.js and src/Winners.js, the JSX, and the recharts components. Only
  the table parsing inside the loaders is modelled; a sheet arrives as a
  `seq<seq<string>>` parameter.
- `availableSeasons` and `availableDivisions` (src/App.js:324-344) are not
  modelled, and neither are the search results' sort (src/App.js:566-578) or
  the sorted winner list the honours page renders.
- The honours rows are taken as a parameter; the concatenation of club and
  manager rows (src/Winners.js:123) is not modelled.
- `localeCompare` and the default `sort()` order are modelled as
  code-point order. Locale collation is not modelled.
- `toLowerCase` covers ASCII and Latin-1 capitals only.
- NormalizeName: its contract states the shape of a normalised name, not
  that names differing only in accents normalise alike. The source removes
  accents after the stop words, so that does not hold: "Fc" normalises to ""
  and "Fç" to "fc" (`NameExamples.AccentHidesStopWord`). What is proved is
  that a trailing " FC" or " AFC" is ignored, and that "Atlético" and
  "Atletico FC" give one key (`NameExamples.AtleticoKeysAgree`).
- `normalize("NFD")` followed by removal of `\p{Diacritic}` is modelled as
  follows: Latin-1 accented letters become their base letter, and the
  combining marks and stand-alone accents of that range are dropped.
  Characters outside Latin-1 pass through unchanged, unlike the source, which
  also folds accented Latin letters beyond Latin-1: "Beşiktaş" becomes
  "besiktas" there and "be iktas" in the model.
- Floating point is not modelled. The threshold average is exact integer
  tenths, `Math.round` rounding halves up. Chart values are stored as the
  integers they denote, since `parseInt` of a rendered integer gives it back.
- `parseInt` without a radix (src/Charts.js:40) is modelled as radix 10.
- `Number(s)` in the season sort of the profiles (src/ManagerProfiles.js:131)
  reads only a normalised season. Such a season is a run of digits, or a
  trimmed string with no digit: `Number` of "" is 0 and of any other such
  string is NaN. Other `Number` syntaxes (hexadecimal, exponents) are not
  modelled.
- SeasonNumber: reads a season "Infinity", "+Infinity" or "-Infinity" as
  NaN, which compares as equal to every season. In the source `Number` gives
  an infinity there, which sorts such a season last (or first).
- JavaScript numbers are doubles and the model's integers are unbounded. A
  points cell or digit run of more than 15 digits would lose precision in
  the source and not in the model.
- The NaN key of `byPos` (src/App.js:503) is not stored, since no lookup asks
  for it.
- `DivPart` of a group key without a bar (the source's `undefined`) is taken
  as "". It cannot arise, because every key holds a bar.
- The `continue` in the promotions loop is written as `else`, and the `break`
  at 50 records as a `return`.
- The five per-marker accumulators of `computeThresholds` are one map from
  marker to accumulator. No aliasing between them is observable.
- The profile loop's accumulator objects are values in a map. The source
  mutates them through `map.get(m)`. `Managers.Aggregate` takes how a row is
  read (manager, facts) as parameters; `Managers.ComputeProfiles` instantiates
  them.
- `lbByCompetition` fills one map of maps in a single pass over the rows.
  The model groups the rows by competition first, then counts each group.
  Both give the same key orders and counts.
- WinnersView.RankingCountsPairs: requires that no kind or winner contains
  `|`. Otherwise the source's `${kind}|${winner}` keys merge different pairs
  and the split returns the wrong winner. `WinnersView.RankingCounts` states
  what holds without this condition.
- Thresholds.ThresholdRowFromRow, Thresholds.HistoryPointOrigin,
  Thresholds.HistoryDistinct: require that no season or division contains
  `|`, for the same reason (src/App.js:478, 500, 539-549).
- Aggregates.FilteredByPositionOrdered, Aggregates.FilteredByDivisionOrdered:
  require that the positions (and divisions) parse. A NaN comparison is read
  as 0, which makes the comparator inconsistent, and the order that `sort`
  then produces is implementation-defined.
- The kind filter of the honours page is treated like the other controls: an
  empty kind selects every honour.
- Source defects, noted and not modelled as intended behaviour:
  - src/Winners.js:29-30 and 38 declare `search`/`setSearch` twice.
  - src/Winners.js calls `setLoading`/`setError` without declaring them.
  - src/App.js:1185 passes `winnersSet`, but src/ManagerProfiles.js:76 reads
    `playoffWinnersSet`. In the running page the profiles' play-off wins are
    therefore always 0. The model takes the set as a parameter.
- Behaviour the code does not have is not modelled: splitting multi-manager
  names, further header aliases, and dropping rows that lack a season or team.

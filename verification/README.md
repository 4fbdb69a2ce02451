# DashboardGenesys interaction pipeline in Dafny

A model of the interaction data pipeline of the DashboardGenesys contact-centre
dashboard:

- the CSV record normaliser, which decides which exported rows become interactions and fills their fields;
- the aggregation engine: summary metrics, top agents, queue distribution, the 07:00 to 18:00 hourly trend, duration and initials formatting, and unique-value lists;
- the analysis page's time and wrap-up breakdowns;
- the dashboard's header filter, its wrap-up option list, file-list operations and CSV export lines;
- the interactions table engine, shared by the current table and its older copy: case-insensitive search, a type-aware stable sort, 1-based pagination and the page buttons;
- the current table's checkbox filters, value lists, column visibility and column drag-and-drop;
- the server's in-memory interaction store (`MemStorage`);
- the selection bookkeeping of the file manager and of the report history page.

Everything is a pure function over immutable datatypes. Timestamps are
integers (epoch milliseconds read in local time). Strings are `seq<char>`.

Modules, in dependency order:

- `Wrappers`, `Seqs`, `Text` and `Sorting` are general definitions:
  - `Option`/`Result`;
  - filter, map, count, select-by-key and JavaScript `slice`;
  - `trim`, `split`, `join`, `includes`, ASCII `toLowerCase`, `parseInt` and number printing;
  - a stable insertion sort with its uniqueness theorem.
- `Records`: the record and stored-interaction datatypes.
- `Normalizer`: `csv-parser.ts`.
- `Groups`: the first-seen-order group-by behind every `reduce` into an object.
- `Metrics`, `Formatting` and `Trend`: `data-utils.ts`.
- `Analysis`: `analysis.tsx`.
- `Dashboard`: `pages/dashboard.tsx`.
- `TableEngine`, `Table` and `LegacyTable`: the two `interactions-table.tsx` files.
- `Storage`: `server/storage.ts`.
- `Selection`: `file-manager.tsx` and `report-history.tsx`.

Behaviour of the code worth noting:

- Queue percentages are rounded one by one, so they can add up to more than 100 (`Metrics.QueuePercentagesCanExceed100`).
- `parseDuration` keeps a leading minus sign, so durations can be negative.
- `getTopAgents` with a negative limit follows `slice(0, limit)`.
- Choosing a search column in either table keeps the current page, unlike typing a term or picking a page size.

## Model

| member | source | states |
|---|---|---|
| Normalizer.TrimmedOrNull | DashboardGenesys-main/DashboardGenesys-main/client/src/lib/csv-parser.ts:88-93 | an optional cell becomes null exactly when it is missing or only white space; otherwise it is the non-empty trimmed text |
| Normalizer.FirstNonBlank | DashboardGenesys-main/DashboardGenesys-main/client/src/lib/csv-parser.ts:49-50 | the chosen piece is the first one that survives `trim` and `filter(Boolean)`; none is chosen only when every piece is blank |
| Normalizer.ExtractAgentNameSpec | DashboardGenesys-main/DashboardGenesys-main/client/src/lib/csv-parser.ts:47-51 | the agent is the trimmed first non-blank `;`-token of Users, or "Unknown Agent" when every token is blank; it is never empty and holds no `;` |
| Normalizer.ExtractQueueNameSpec | DashboardGenesys-main/DashboardGenesys-main/client/src/lib/csv-parser.ts:53-57 | the queue is the trimmed first non-blank `;`-token of Queue, or "Unknown Queue"; it is never empty and holds no `;` |
| Normalizer.ExtractFirstSpec | DashboardGenesys-main/DashboardGenesys-main/client/src/lib/csv-parser.ts:47-57 | for any well-formed fallback, the shared extractor returns trimmed, separator-free text: the first non-blank token or the fallback |
| Normalizer.ExtractAgentNameIdempotent | DashboardGenesys-main/DashboardGenesys-main/client/src/lib/csv-parser.ts:47-51 | extracting the agent from an extracted agent name returns it unchanged |
| Normalizer.ExtractQueueNameIdempotent | DashboardGenesys-main/DashboardGenesys-main/client/src/lib/csv-parser.ts:53-57 | extracting the queue from an extracted queue name returns it unchanged |
| Normalizer.ExtractFirstIdempotent | DashboardGenesys-main/DashboardGenesys-main/client/src/lib/csv-parser.ts:47-57 | the extractor is idempotent for every well-formed fallback |
| Normalizer.AgentFallbackGood | DashboardGenesys-main/DashboardGenesys-main/client/src/lib/csv-parser.ts:50 | "Unknown Agent" is non-empty, trimmed and free of `;`, so it is its own extraction |
| Normalizer.QueueFallbackGood | DashboardGenesys-main/DashboardGenesys-main/client/src/lib/csv-parser.ts:56 | "Unknown Queue" is non-empty, trimmed and free of `;` |
| Normalizer.BlankUsersGiveUnknownAgent | DashboardGenesys-main/DashboardGenesys-main/client/src/lib/csv-parser.ts:69-82 | a Users cell of only separators and blanks, such as " ; ", passes the row filter yet yields "Unknown Agent" |
| Normalizer.ParseDuration | DashboardGenesys-main/DashboardGenesys-main/client/src/lib/csv-parser.ts:36-45 | a negative duration can only come from a cell that holds a minus sign |
| Normalizer.ParseDurationOfInt | DashboardGenesys-main/DashboardGenesys-main/client/src/lib/csv-parser.ts:36-45 | a cell holding any printed integer, negative ones included, reads back as that integer: nothing is clamped |
| Normalizer.ParseDurationNoDigits | DashboardGenesys-main/DashboardGenesys-main/client/src/lib/csv-parser.ts:39-40 | a cell whose trimmed text starts with neither a digit nor a sign parses to `NaN`, which becomes 0 |
| Normalizer.ParseDurationLeadingDigits | DashboardGenesys-main/DashboardGenesys-main/client/src/lib/csv-parser.ts:36-45 | when the trimmed cell is an optional sign, a non-empty digit run and text that does not continue the run, the duration is the run's value, negated after a minus sign: "300000ms" reads 300000, "+5" reads 5, "007" reads 7 |
| Normalizer.ParseDurationBareSign | DashboardGenesys-main/DashboardGenesys-main/client/src/lib/csv-parser.ts:39-40 | a sign that no digit follows, as in "-" or "-x", parses to `NaN`, which becomes 0 |
| Normalizer.ParseDurationEmpty | DashboardGenesys-main/DashboardGenesys-main/client/src/lib/csv-parser.ts:36-45 | a missing cell (whose `trim` throws) and a blank cell both give 0 |
| Text.ParseIntSignedDigits | DashboardGenesys-main/DashboardGenesys-main/client/src/lib/csv-parser.ts:39 | `parseInt` of an optional sign, a digit run and text that does not continue the run is the run's value, negated after a minus sign |
| Normalizer.NormalizeRowFields | DashboardGenesys-main/DashboardGenesys-main/client/src/lib/csv-parser.ts:75-94 | in a normalised record the agent and queue are separator-free names and the id and customer are trimmed cells; media type and direction take their defaults exactly for blank or missing cells; each optional field is null exactly when its cell is blank or missing; wrap-up stays unsplit |
| Normalizer.NormalizeAll | DashboardGenesys-main/DashboardGenesys-main/client/src/lib/csv-parser.ts:75 | the row map yields one record per kept row, in input order |
| Normalizer.Normalize | DashboardGenesys-main/DashboardGenesys-main/client/src/lib/csv-parser.ts:64-100 | parsing succeeds exactly when every kept row has a Queue cell (otherwise the `trim` of undefined rejects the batch); on success there is one record per kept row, no more than the input rows |
| Normalizer.NormalizeOutputsFromKeptRows | DashboardGenesys-main/DashboardGenesys-main/client/src/lib/csv-parser.ts:66-95 | every output record is the normalisation of an input row that has all five required cells non-empty |
| Normalizer.NormalizeOne | DashboardGenesys-main/DashboardGenesys-main/client/src/lib/csv-parser.ts:67-74 | a single row is dropped when one of Conversation ID, Date, End Date, Users or Remote is missing or empty (white space counts as present); a kept row is normalised or, without Queue, rejected |
| Normalizer.NormalizeAppend | DashboardGenesys-main/DashboardGenesys-main/client/src/lib/csv-parser.ts:66-95 | normalising two batches together succeeds exactly when both do, and gives the two results concatenated: rows are handled independently and in order |
| Records.NullIfEmpty | server/storage.ts:59-62 | `v \|\| null` keeps a value exactly when it is a non-empty string and drops it to null otherwise |
| Metrics.RoundDiv | DashboardGenesys-main/DashboardGenesys-main/client/src/lib/data-utils.ts:9 | `Math.round(p / q)` is the integer nearest to `p / q`, with halves rounded up |
| Metrics.PercentBounds | DashboardGenesys-main/DashboardGenesys-main/client/src/lib/data-utils.ts:28-30 | a rounded percentage of a part of a whole lies between 0 and 100 |
| Metrics.CalculateMetrics | DashboardGenesys-main/DashboardGenesys-main/client/src/lib/data-utils.ts:4-39 | the total is the input length; an empty input gives all zeros, with no division by zero; otherwise the average handle time is within half a minute of the mean duration |
| Metrics.CalculateMetricsAgents | DashboardGenesys-main/DashboardGenesys-main/client/src/lib/data-utils.ts:11-13 | active agents is the number of distinct agent names: at most the total, and 0 exactly for an empty input |
| Metrics.CalculateMetricsChannel | DashboardGenesys-main/DashboardGenesys-main/client/src/lib/data-utils.ts:15-30 | the primary channel volume is at least every media type's count and is reached by one of them, so it does not depend on how ties are broken; its percentage lies in 0..100 |
| Metrics.ChannelVolumeAttained | DashboardGenesys-main/DashboardGenesys-main/client/src/lib/data-utils.ts:21-27 | on a non-empty input some interaction's media type has exactly the primary channel volume |
| Metrics.PickIsLargest | DashboardGenesys-main/DashboardGenesys-main/client/src/lib/data-utils.ts:22-24 | the seedless reduce returns one of the groups and none of them is larger |
| Metrics.AgentRowSpec | DashboardGenesys-main/DashboardGenesys-main/client/src/lib/data-utils.ts:42-65 | an agent's row counts its interactions, rounds the mean duration to minutes, and lists each of its queues exactly once |
| Metrics.AgentStatsSpec | DashboardGenesys-main/DashboardGenesys-main/client/src/lib/data-utils.ts:41-65 | the row of an agent, computed over the whole input, counts that agent's interactions and lists exactly the queues it served, without repeats |
| Metrics.AgentRankingFacts | DashboardGenesys-main/DashboardGenesys-main/client/src/lib/data-utils.ts:59-66 | the ranking has one row per distinct agent, ordered by non-increasing interaction count |
| Metrics.AgentRowsContents | DashboardGenesys-main/DashboardGenesys-main/client/src/lib/data-utils.ts:42-65 | each accumulated row is the stats of its agent, and every agent present has its row |
| Metrics.TopAgentsSpec | DashboardGenesys-main/DashboardGenesys-main/client/src/lib/data-utils.ts:41-68 | for a limit of 0 or more the list has min(limit, distinct agents) rows, one per agent, busiest first |
| Metrics.TopAgentsRows | DashboardGenesys-main/DashboardGenesys-main/client/src/lib/data-utils.ts:59-67 | every listed row is the true stats of its agent; a limit covering all agents lists every agent |
| Metrics.QueueRows | DashboardGenesys-main/DashboardGenesys-main/client/src/lib/data-utils.ts:88-94 | the rows are the accumulated groups read back one for one, in first-seen order |
| Metrics.QueueDistributionSpec | DashboardGenesys-main/DashboardGenesys-main/client/src/lib/data-utils.ts:70-96 | one row per distinct queue, not truncated, ordered by non-increasing count; the counts add up to the input length |
| Metrics.QueueDistributionRows | DashboardGenesys-main/DashboardGenesys-main/client/src/lib/data-utils.ts:70-95 | every row is the true stats of its queue, and every queue present has its row |
| Metrics.QueueStatsSpec | DashboardGenesys-main/DashboardGenesys-main/client/src/lib/data-utils.ts:86-93 | a queue's row counts its interactions, rounds its mean duration, and rounds its share of all interactions to a percentage in 0..100 |
| Metrics.TwoQueueSum | DashboardGenesys-main/DashboardGenesys-main/client/src/lib/data-utils.ts:88-95 | with exactly two queues, the percentages add up to the two queues' own rounded shares |
| Metrics.QueuePercentagesCanExceed100 | DashboardGenesys-main/DashboardGenesys-main/client/src/lib/data-utils.ts:93 | one interaction in one queue and seven in another give percentages 13 and 88 (12.5 and 87.5 rounded up), which sum to 101 |
| Groups.GroupByCorrect | DashboardGenesys-main/DashboardGenesys-main/client/src/lib/data-utils.ts:42-57 | the object built by the `reduce` has one entry per distinct key, in first-seen order, and each entry holds exactly the items with that key, in order |
| Groups.GroupByTotal | DashboardGenesys-main/DashboardGenesys-main/client/src/lib/data-utils.ts:71-84 | the group sizes add up to the number of items |
| Groups.GroupByCount | DashboardGenesys-main/DashboardGenesys-main/client/src/lib/data-utils.ts:12-13 | there are as many groups as distinct keys |
| Formatting.PadStart2 | DashboardGenesys-main/DashboardGenesys-main/client/src/lib/data-utils.ts:121 | `padStart(2, '0')` gives text of length at least 2 and never shortens |
| Formatting.PadStart2OfSmall | DashboardGenesys-main/DashboardGenesys-main/client/src/lib/data-utils.ts:108 | padding the decimal text of a number below 100 gives its two digits |
| Formatting.TwoDigitsParse | DashboardGenesys-main/DashboardGenesys-main/client/src/lib/data-utils.ts:121 | the two padded digits of a number below 100 read back as that number |
| Formatting.HourLabelInjective | DashboardGenesys-main/DashboardGenesys-main/client/src/lib/data-utils.ts:100-111 | two hours of the day get the same "HH:00" label exactly when they are the same hour |
| Formatting.HourLabelOrder | DashboardGenesys-main/DashboardGenesys-main/client/src/lib/data-utils.ts:107-113 | labels of the hours of one day compare as text in the order of the hours |
| Formatting.HourLabelExamples | DashboardGenesys-main/DashboardGenesys-main/client/src/lib/data-utils.ts:105-108 | the first and last trend labels are "07:00" and "18:00" |
| Formatting.TruncDiv | DashboardGenesys-main/DashboardGenesys-main/client/src/lib/data-utils.ts:120 | division rounding toward zero agrees with floor division on non-negative numbers and mirrors it on negative ones |
| Formatting.DurationSecondsRange | DashboardGenesys-main/DashboardGenesys-main/client/src/lib/data-utils.ts:120 | the seconds part lies in -60..59 and has the sign of the duration |
| Formatting.DurationSecondsOfNatural | DashboardGenesys-main/DashboardGenesys-main/client/src/lib/data-utils.ts:118-122 | for a duration of 0 or more, seconds lie in 0..59 and minutes times 60 plus seconds is the whole seconds of the duration |
| Formatting.FormatDurationOfNatural | DashboardGenesys-main/DashboardGenesys-main/client/src/lib/data-utils.ts:118-122 | a duration of 0 or more is written as whole minutes, a colon, and exactly two second digits |
| Formatting.FormatDurationRoundTrip | DashboardGenesys-main/DashboardGenesys-main/client/src/lib/data-utils.ts:118-122 | splitting the text at the colon and parsing both sides recovers the minutes and seconds, which recombine into the whole seconds |
| Formatting.FormatDurationOfNegative | DashboardGenesys-main/DashboardGenesys-main/client/src/lib/data-utils.ts:119-121 | -1500 ms is written "-1:-2": floor on the minutes, the remainder's sign on the seconds |
| Formatting.AgentInitialsShape | DashboardGenesys-main/DashboardGenesys-main/client/src/lib/data-utils.ts:124-130 | with upper-casing of ASCII letters only, the initials are at most two characters, with no lower-case ASCII letter |
| Formatting.AgentInitialsOfWord | DashboardGenesys-main/DashboardGenesys-main/client/src/lib/data-utils.ts:124-130 | a one-word name gives its upper-cased first letter |
| Formatting.AgentInitialsOfWords | DashboardGenesys-main/DashboardGenesys-main/client/src/lib/data-utils.ts:124-130 | a name of two or more words gives the upper-cased first letters of the first two |
| Formatting.UniqueValuesSpec | DashboardGenesys-main/DashboardGenesys-main/client/src/lib/data-utils.ts:132-135 | the list is strictly ascending, so it has no repeats, and holds exactly the non-empty values the field takes |
| Formatting.UniqueValuesCanonical | DashboardGenesys-main/DashboardGenesys-main/client/src/lib/data-utils.ts:132-135 | any strictly ascending list of exactly those values is this list |
| Trend.HourlyTrendSpec | DashboardGenesys-main/DashboardGenesys-main/client/src/lib/data-utils.ts:98-116 | exactly 12 rows for 07:00 to 18:00, each counting the interactions that started in that hour |
| Trend.HourlyTrendLabels | DashboardGenesys-main/DashboardGenesys-main/client/src/lib/data-utils.ts:105-113 | the rows run from "07:00" to "18:00" in strictly ascending label order |
| Trend.HourlyTrendTotal | DashboardGenesys-main/DashboardGenesys-main/client/src/lib/data-utils.ts:98-116 | the counts add up to the interactions that started between 07:00 and 18:59, so never to more than the input length |
| Trend.SelectLabelHour | DashboardGenesys-main/DashboardGenesys-main/client/src/lib/data-utils.ts:100-101 | keying by the "HH:mm" label of the start hour groups exactly the interactions of that hour |
| Analysis.TallyOfGroupBy | DashboardGenesys-main/DashboardGenesys-main/client/src/pages/analysis.tsx:26-31 | counting into an object gives one entry per key with that key's count, and the counts add up to the input length |
| Analysis.TallyPermutation | DashboardGenesys-main/DashboardGenesys-main/client/src/pages/analysis.tsx:179-180 | reordering the entries for display keeps them a tally of the same input |
| Analysis.KeyHourOfHourText | DashboardGenesys-main/DashboardGenesys-main/client/src/pages/analysis.tsx:28 | `parseInt(key.split(':')[0])` recovers the hour from its unpadded "h:00" key |
| Analysis.TimeBreakdownSpec | DashboardGenesys-main/DashboardGenesys-main/client/src/pages/analysis.tsx:25-31 | the hourly breakdown has one entry per start hour over all 24 hours, with no window; the counts add up to the input length and the entries are in strictly ascending hour order |
| Analysis.WrapUpCodesSpec | DashboardGenesys-main/DashboardGenesys-main/client/src/pages/analysis.tsx:34-35 | a record with a non-empty wrap-up contributes one trimmed code per `;`-piece, empty pieces included; a null or empty wrap-up contributes nothing |
| Analysis.AllCodesLength | DashboardGenesys-main/DashboardGenesys-main/client/src/pages/analysis.tsx:33-40 | the codes met number the sum over records of each record's code count |
| Analysis.WrapUpBreakdownSpec | DashboardGenesys-main/DashboardGenesys-main/client/src/pages/analysis.tsx:32-41 | one entry per code, counting every occurrence; the counts add up to the number of codes and run from most to least frequent |
| Analysis.AnalyseAgentView | DashboardGenesys-main/DashboardGenesys-main/client/src/pages/analysis.tsx:23-24 | the agent view lists the ten busiest agents, or all of them when there are fewer, busiest first |
| Analysis.AnalyseTimeView | DashboardGenesys-main/DashboardGenesys-main/client/src/pages/analysis.tsx:25-31 | the time view is a tally by start hour, and the display holds the same entries |
| Analysis.AnalyseWrapUpView | DashboardGenesys-main/DashboardGenesys-main/client/src/pages/analysis.tsx:32-41 | the wrap-up view is a tally of the codes, and the display holds the same entries |
| Dashboard.FilterInteractionsSpec | DashboardGenesys-main/DashboardGenesys-main/client/src/pages/dashboard.tsx:51-70 | the filter keeps exactly the passing interactions, in their order, and filtering again changes nothing |
| Dashboard.InitialFiltersKeepAll | DashboardGenesys-main/DashboardGenesys-main/client/src/pages/dashboard.tsx:27-34 | the starting filter state keeps every interaction |
| Dashboard.DateRangeOnly | DashboardGenesys-main/DashboardGenesys-main/client/src/pages/dashboard.tsx:54-59 | the date bounds are inclusive on the start time, and a missing bound imposes nothing |
| Dashboard.QueueOnly | DashboardGenesys-main/DashboardGenesys-main/client/src/pages/dashboard.tsx:62 | a queue selection keeps an interaction exactly when its queue contains the text, case-sensitively |
| Dashboard.AgentOnly | DashboardGenesys-main/DashboardGenesys-main/client/src/pages/dashboard.tsx:63 | an agent selection keeps an interaction exactly when its agent contains the text, case-sensitively |
| Dashboard.MediaTypeOnly | DashboardGenesys-main/DashboardGenesys-main/client/src/pages/dashboard.tsx:64 | a media type selection keeps exactly that media type, with no substring matching |
| Dashboard.WrapUpOnly | DashboardGenesys-main/DashboardGenesys-main/client/src/pages/dashboard.tsx:65 | a wrap-up selection rejects a null or empty wrap-up and otherwise tests for a substring |
| Dashboard.FlowOnly | DashboardGenesys-main/DashboardGenesys-main/client/src/pages/dashboard.tsx:66 | a flow selection rejects a null or empty flow and otherwise tests for a substring |
| Dashboard.PassesEveryPart | DashboardGenesys-main/DashboardGenesys-main/client/src/pages/dashboard.tsx:52-69 | passing the whole filter is passing the date range and each field's selection on its own |
| Dashboard.MediaTypeIsNotSubstring | DashboardGenesys-main/DashboardGenesys-main/client/src/pages/dashboard.tsx:62-64 | "voi" selects the queue "voice" but not the media type "voice" |
| Dashboard.WrapUpOptionsSpec | DashboardGenesys-main/DashboardGenesys-main/client/src/pages/dashboard.tsx:81-93 | the wrap-up options are strictly ascending and are exactly the non-empty trimmed `;`-tokens of all wrap-ups |
| Dashboard.ApplyChangeSpec | DashboardGenesys-main/DashboardGenesys-main/client/src/pages/dashboard.tsx:95-97 | a filter change sets exactly the fields it names and keeps the others; applying it twice is applying it once, and an empty change does nothing |
| Dashboard.UploadComplete | DashboardGenesys-main/DashboardGenesys-main/client/src/pages/dashboard.tsx:210-220 | an upload appends one active file with the given name and count and keeps the earlier files |
| Dashboard.ToggleFileSpec | DashboardGenesys-main/DashboardGenesys-main/client/src/pages/dashboard.tsx:229-235 | only the files with that id change, and only their active flag; toggling twice restores the list |
| Dashboard.DeleteMultipleSpec | DashboardGenesys-main/DashboardGenesys-main/client/src/pages/dashboard.tsx:247-248 | exactly the listed files go and the rest keep their order; an empty list removes nothing |
| Dashboard.DeleteFileSpec | DashboardGenesys-main/DashboardGenesys-main/client/src/pages/dashboard.tsx:237-238 | deleting one file is deleting the list of that one id |
| Dashboard.ExportLinesSpec | DashboardGenesys-main/DashboardGenesys-main/client/src/pages/dashboard.tsx:101-119 | the export is a header line that splits into the nine column names, then one line per filtered interaction, in order |
| Dashboard.ExportCsvLines | DashboardGenesys-main/DashboardGenesys-main/client/src/pages/dashboard.tsx:106-119 | when no field holds a line break, splitting the text at line breaks gives back the header and the row lines |
| TableEngine.MatchesAnyIsSomeColumn | client/src/components/dashboard/interactions-table.tsx:215-232 | searching all columns passes exactly when one of the eight searchable columns matches |
| TableEngine.SearchPassesSpec | client/src/components/dashboard/interactions-table.tsx:215-259 | an empty term passes every row, an unrecognised column passes every row, and the term's case never matters |
| TableEngine.SearchIgnoresAniDnis | client/src/components/dashboard/interactions-table.tsx:215-259 | changing ANI or DNIS never changes whether a row passes the search |
| TableEngine.SearchIgnoresCase | client/src/components/dashboard/interactions-table.tsx:217-240 | "ALI" finds customer "alice" in all columns and in the customer column, but not in the agent column |
| TableEngine.SortRowsSpec | client/src/components/dashboard/interactions-table.tsx:263-284 | the sorted rows are a rearrangement, ordered by the field's key in the chosen direction; rows with equal keys keep their order; with no sort field nothing moves |
| TableEngine.TotalPagesSpec | client/src/components/dashboard/interactions-table.tsx:287 | the page count is 0 exactly for no rows, and otherwise is just enough pages for every row |
| TableEngine.CeilUnique | client/src/components/dashboard/interactions-table.tsx:287 | the page count is the only number of pages that is just enough |
| TableEngine.PageSpec | client/src/components/dashboard/interactions-table.tsx:288-292 | a page in range holds rows `(page-1)*size` up to `page*size` or the end; a page past the end, or page 0, is empty |
| TableEngine.PagesPartition | client/src/components/dashboard/interactions-table.tsx:287-292 | pages 1 to the page count concatenate to the sorted rows without overlap |
| TableEngine.HandleSortSpec | client/src/components/dashboard/interactions-table.tsx:294-302 | a click makes the field the sort field and goes to page 1; the direction flips on the same field and is ascending on a new one; nothing else changes |
| TableEngine.PageButtonsSpec | client/src/components/dashboard/interactions-table.tsx:963-980 | Previous never goes below page 1 and Next never beyond the page count; with no rows Next goes to page 0 |
| TableEngine.ViewEventsSpec | client/src/components/dashboard/interactions-table.tsx:834-866 | a new search term or page size shows the first page of the sorted rows; a new search column keeps the page, so a page past the end shows nothing |
| Table.CheckboxPassesSpec | client/src/components/dashboard/interactions-table.tsx:186-212 | with nothing ticked every row passes; with values ticked in one column a row passes exactly when its value is one of them |
| Table.CheckboxPassesUpdate | client/src/components/dashboard/interactions-table.tsx:186-212 | ticked columns combine by conjunction: setting one column's values tests that column and keeps the other columns' tests |
| Table.HandleCheckboxSpec | client/src/components/dashboard/interactions-table.tsx:371-396 | ticking adds the value and unticking removes it; a column is kept exactly while its set is non-empty, and other columns do not change |
| Table.CheckThenUncheck | client/src/components/dashboard/interactions-table.tsx:371-396 | ticking a value that was not ticked and then unticking it restores the filters |
| Table.ClearColumnSpec | client/src/components/dashboard/interactions-table.tsx:398-405 | after clearing a column a row passes exactly when it passes the other columns |
| Table.ColumnValuesSpec | client/src/components/dashboard/interactions-table.tsx:131-151 | a column offers its non-empty values, strictly ascending; columns without checkboxes offer none |
| Table.FilteredValuesSpec | client/src/components/dashboard/interactions-table.tsx:154-163 | the shown values keep the offered order and are exactly those containing the column's lower-cased search text |
| Table.DefaultColumnsSpec | client/src/components/dashboard/interactions-table.tsx:94-128 | the thirteen starting columns have distinct keys, and the first seven and the tenth are shown at first |
| Table.ToggleVisibleSpec | client/src/components/dashboard/interactions-table.tsx:166-176 | a toggle flips one column's visibility, keeps the rest, and a second toggle undoes it |
| Table.MoveSpec | client/src/components/dashboard/interactions-table.tsx:332-339 | the splice pair is a rearrangement that puts the dragged column at the target, and moving onto itself changes nothing |
| Table.HandleDropSpec | client/src/components/dashboard/interactions-table.tsx:323-364 | after a drop the shown columns come first in the dragged order and the hidden ones follow in their previous order; the result is a permutation of the columns with distinct keys |
| Table.HandleDropVisible | client/src/components/dashboard/interactions-table.tsx:323-364 | the shown columns after a drop read in exactly the dragged order |
| Table.HandleDropNoop | client/src/components/dashboard/interactions-table.tsx:323-330 | with nothing dragged, or a column dropped onto its own place, the columns are unchanged |
| Table.EventsKeepValid | client/src/components/dashboard/interactions-table.tsx:371-405 | the starting state has distinct column keys and no empty checkbox set; the checkbox events keep that and go back to page 1 |
| Table.DropKeepsValid | client/src/components/dashboard/interactions-table.tsx:323-364 | a drop keeps the column keys distinct |
| LegacyTable.FilterRows | DashboardGenesys-main/DashboardGenesys-main/client/src/components/dashboard/interactions-table.tsx:30-68 | the earlier table keeps exactly the rows that pass the shared search test |
| LegacyTable.FilterRowsIdempotent | DashboardGenesys-main/DashboardGenesys-main/client/src/components/dashboard/interactions-table.tsx:30-68 | its rows are an order-preserving subsequence, and searching them again changes nothing |
| LegacyTable.SameWithoutCheckboxes | DashboardGenesys-main/DashboardGenesys-main/client/src/components/dashboard/interactions-table.tsx:30-97 | with no checkbox ticked the current table keeps and shows exactly what the earlier table does for the same search, sort and page |
| LegacyTable.CheckboxesOnlyNarrow | DashboardGenesys-main/DashboardGenesys-main/client/src/components/dashboard/interactions-table.tsx:30-68 | the current table's rows are always an order-preserving subsequence of the earlier table's |
| Storage.CreateSpec | server/storage.ts:54-66 | a new interaction gets the counter as its id and the counter moves on; falsy wrap-up, flow, ANI and DNIS become null and everything else is the input; it is appended and the store stays valid |
| Storage.CreateMany | server/storage.ts:68-75 | one interaction per input, in order, with consecutive ids from the old counter; the store grows by exactly those and stays valid |
| Storage.GetAllSpec | server/storage.ts:48-52 | each stored interaction is listed exactly once, latest start first, with equal start times in insertion order |
| Storage.QueriesSpec | server/storage.ts:77-94 | the date query keeps start times inside both bounds inclusive; the queue and agent queries keep case-sensitive substring matches; all keep insertion order, and an empty text matches everything |
| Storage.ClearSpec | server/storage.ts:96-99 | clearing gives the starting store, which is valid; clearing twice is clearing once, and the next id is 1 |
| Selection.CheckSpec | client/src/components/dashboard/file-manager.tsx:40-46 | checking appends the id without de-duplication; unchecking removes every occurrence and keeps the other ids and their counts |
| Selection.FullCountIsAll | client/src/components/dashboard/file-manager.tsx:71 | when the selection lists distinct file ids, a full count means every file is selected |
| Selection.SelectAllFilesSpec | client/src/components/dashboard/file-manager.tsx:32-38 | select-all lists every file id in file order and clearing empties the selection; the header box is never both checked and indeterminate |
| Selection.IsAllSelectedMeaning | client/src/components/dashboard/file-manager.tsx:71 | with distinct ids, the header box is checked exactly when there are files and every one is selected |
| Selection.ConfirmSpec | client/src/components/dashboard/file-manager.tsx:53-69 | bulk delete removes exactly the selected files and clears the selection; single delete acts only with a target set, removes that file and resets the target |
| Selection.StaleSelectionShowsAllSelected | client/src/components/dashboard/file-manager.tsx:53-72 | deleting selected file a of a, b, c with a and b selected leaves a's id selected, and the header box shows all selected although c is not |
| Selection.ConfirmDeleteFixedKeepsSelection | client/src/components/dashboard/file-manager.tsx:53-72 | when the deleted id also leaves the selection, the selection stays a duplicate-free selection of the remaining files |
| Selection.FilteredReportsSpec | DashboardGenesys-main/DashboardGenesys-main/client/src/pages/report-history.tsx:54-57 | the search keeps exactly the reports whose lower-cased name or filters contain the lower-cased term, in order; an empty term keeps all |
| Selection.SelectAllReportsIgnoresListed | DashboardGenesys-main/DashboardGenesys-main/client/src/pages/report-history.tsx:67-73 | with report 1 selected and only report 2 listed, the header box reads as checked and a click clears the selection instead of selecting report 2 |
| Selection.SelectAllReportsFixedSpec | DashboardGenesys-main/DashboardGenesys-main/client/src/pages/report-history.tsx:67-73 | the intended toggle clears when every listed report is selected and otherwise selects every listed report; it agrees with the code when the selection holds only distinct listed ids |
| Selection.DeleteReportsSpec | DashboardGenesys-main/DashboardGenesys-main/client/src/pages/report-history.tsx:91-99 | single delete removes exactly that report and its id from the selection; bulk delete removes exactly the selected reports, keeps the rest in order and clears the selection |

## Left out

- File reading, HTTP routes, the React hooks and the network are left out. Only the pure logic of each component is modelled.
- PapaParse tokenising and header matching are left out; the normaliser starts from rows already split into named cells (`Records.RawRow`).
- `parseDateString` (date-fns `parse`) is a function parameter of the normaliser. Its fallback to the current time is left out, because it reads the clock.
- `toISOString`, used by the CSV export, is a function parameter. `Date.now()`, which names an uploaded file, is a parameter `now`.
- Records.HourOf: reads the hour as `(t div 3600000) mod 24` on local-time milliseconds, so time zones and daylight-saving shifts are left out.
- Text.Lower: folds only ASCII letters, because Unicode case mapping is outside the model.
- Text.UpperChar: maps only 'a' to 'z', because Unicode case mapping is outside the model. JavaScript `toUpperCase` can lengthen a character ("ß" becomes "SS").
- Formatting.AgentInitialsShape: holds for the ASCII-only upper-casing of `Text.UpperChar`. In the source, `getAgentInitials("ßa ßb")` is "SSSS", four characters, while the model gives "ßß". `charAt(0)` also takes half of a surrogate pair for a character outside the Basic Multilingual Plane.
- Text.LexLess: compares characters by code point. JavaScript `<` compares UTF-16 code units, and the two orders differ between characters above U+FFFF and characters in U+E000 to U+FFFF. This reaches `Text.SortStrings`, `Formatting.UniqueValues` and `TableEngine.SortValue`.
- Groups.GroupBy: lists groups in first-seen order. A JavaScript object built by `reduce` from `{}` lists integer-like keys (such as "42") first, in ascending numeric order, then the other keys in first-seen order. The time view's "h:00" keys are not integer-like, so it is unaffected.
- Metrics.TopAgents: ties keep the model's first-seen order. In the source the count-only stable sorts of `getTopAgents` (data-utils.ts:66), `getQueueDistribution` (data-utils.ts:95) and the wrap-up view (analysis.tsx:202) put integer-like names first among equal counts. So tie order differs, and so does which agents survive the `slice`. With agents "Bob" then "42", one interaction each, and limit 1, the source lists "42" and the model lists "Bob". `Metrics.TopAgentsSpec` leaves tie order open and holds for both.
- Groups.GroupByCorrect: states first-seen order and a plain map from keys to groups. It does not model the integer-like key order above, nor the names that `{}` inherits from `Object.prototype`, described next.
- Groups.GroupBy: assumes no key is an `Object.prototype` property name. In the source an agent named "constructor" or "toString" makes `acc[agent].queues.add` throw a `TypeError`. A queue with such a name, or "__proto__", is never entered, because `!acc[queue]` is false, and is then missing from `Object.values`, so the queue counts no longer add up to the input length. A media type with such a name gets a string count (data-utils.ts:17).
- Metrics.RoundDiv: models `Math.round` of a quotient exactly on integers, so floating-point error in the division is left out.
- Text.ParseInt: returns an unbounded integer. JavaScript `parseInt` returns a double, so digit runs above 2^53 lose precision there.
- `toFixed(1)` percentages, `toLocaleString`, jsPDF generation and the PDF duration text are floating-point or rendering code and are left out.
- The CSV export is not a round trip: fields are quoted without doubling embedded quotes, contrary to rule 7 of section 2 of RFC 4180. So no property against a CSV parser is stated; `Dashboard.ExportCsvLines` holds only when no field contains a line break.
- Storage: `MemStorage` is a value (items in `Map` insertion order plus the counter) rather than a class. The query methods are pure functions, so they change neither the items nor the counter by construction.
- The user methods of `server/storage.ts:31-46` are left out because nothing calls them.
- Table.HandleDrop: requires the dragged and target indices to be indices of the shown columns, which the drag events guarantee; the drag events themselves are left out.
- JSX rendering, popovers, toasts, theme, charts, sidebar, header and metric cards are presentation only and are left out.
- `handleDeleteFile` and `handleDeleteMultiple` also send a request that clears the server store. That request is left out of `Dashboard` and is modelled on its own as `Storage.Clear`.

## Findings

| source | as written | input that shows it | evidently intended | confidence | as-written member | corrected member |
|---|---|---|---|---|---|---|
| client/src/components/dashboard/file-manager.tsx:53-59 | single delete removes the file but leaves its id in `selectedFiles`, and `isAllSelected` (line 71) compares only lengths | files a, b, c with a and b selected; delete a: the selection is still [a, b], its length equals the two remaining files, so the header box shows all selected while c is not | the deleted id also leaves the selection, as `handleDelete` in report-history.tsx does | not executed | Selection.StaleSelectionShowsAllSelected | Selection.ConfirmDeleteFixedKeepsSelection |
| DashboardGenesys-main/DashboardGenesys-main/client/src/pages/report-history.tsx:67-73 | select-all compares the selection's length with the number of listed reports, whatever ids the selection holds | report 1 selected, then a search lists only report 2: the lengths match, so the header box (line 172) shows checked and a click clears the selection instead of selecting report 2 | clear only when every listed report is selected, otherwise select the listed reports | not executed | Selection.SelectAllReportsIgnoresListed | Selection.SelectAllReportsFixedSpec |

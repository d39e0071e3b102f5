# airbusdriver pilot-comments viewer — a Dafny model

The viewer fetches the "CQ Line Pilot Comments" page of airbusdriver.net
through a small proxy worker. It extracts one dated entry per table row
after the marker row and keeps the entries in `localStorage` for 24 hours.
It filters them by month range and by a search query of quoted phrases and
keywords, and sorts them by date. It shows a short context around the first
match and exports the visible entries as CSV. The proxy worker exists in two
revisions, `workers/index.js` and the earlier `cloudflare-worker.js`. Both
admit only the airbusdriver.net hosts and keep successful pages in the edge
cache. Either cache can be bypassed on request.

The model has one Dafny module per component:

- `Text`: JavaScript string primitives and whitespace normalisation.
- `Calendar`: the ECMAScript `Date` arithmetic.
- `DateResolver`: `parseDate`.
- `EntryExtractor`: `getEntriesFromDocument`.
- `SearchQuery`: `parseSearchQuery`.
- `SearchContext`: `getSearchContext`.
- `QueryEngine`: the search filter, the month-range filter, the stable date
  sort and the `getFilteredEntries` pipeline of the page's state.
- `CacheStore`: the `localStorage`/`sessionStorage` cache.
- `CsvExport`: the CSV export.
- `ProxyUrl`: `buildProxyUrl`.
- `ProxyHttp`, `WorkerGate`, `LegacyWorkerGate`: the two worker revisions.

Code that is written as loops in the application is modelled as methods.
Each method is proved equal to a specification function, and the
properties are proved as lemmas about that function. This covers the
exact-phrase `exec` loop, the token walks of `getSearchContext`, the
row-by-row extraction, the array sort and the CSV row loop. The mutable
state lives in classes:

- the page's filter state (`QueryEngine.Session`);
- the two web storages (`CacheStore.BrowserCache`);
- the edge cache (`WorkerGate.EdgeCache`, `LegacyWorkerGate.EdgeCache`).

A few things are taken as parameters rather than modelled:

- the `Date` string parse (`generalParse`);
- `new URL(...)`, `encodeURIComponent` and the JSON primitives;
- the clock, and the result of each storage write;
- the page fetched upstream.

## Model

| member | source | states |
|---|---|---|
| Text.LeadingSpaces | app.js:420 | the count is the exact run of JavaScript `\s` characters the string starts with |
| Text.IsSpace | app.js:420 | the characters of JavaScript's `\s` class, which are also those `trim` removes; characterised by LeadingSpaces and Trim |
| Text.Trim | app.js:420 | `trim()`: the result is the input with its leading and trailing whitespace removed, starts and ends with non-whitespace, and is empty exactly when the input is all whitespace |
| Text.TrimUnchanged | app.js:420 | trimming a string that already has no whitespace at either end leaves it unchanged |
| Text.CollapseSpaces | app.js:420 | `replace(/\s+/g, " ")`: every whitespace character left is a plain space, no two spaces are adjacent, the result is no longer, and it starts with a space exactly when the input starts with whitespace |
| Text.CollapseKeepsWords | app.js:420 | `replace(/\s+/g, " ")` keeps every word of the text, in order, and turns each whitespace run (at the ends too) into exactly one space |
| Text.NormalizeWhitespace | app.js:419-420 | the result is normalised (no whitespace at the ends, no other whitespace than single spaces) and no longer than the input |
| Text.NormalizeIsJoinedWords | app.js:419-420 | the normalised text is exactly the words of the text joined by single spaces |
| Text.TrimCollapsed | app.js:420 | trimming a collapsed string gives a normalised string |
| Text.CollapseUnchanged | app.js:420 | collapsing a string that is already collapsed changes nothing |
| Text.NormalizeIdempotent | app.js:419-420 | normalising twice equals normalising once |
| Text.IndexOfFrom | app.js:569 | `indexOf(pat, from)`: the result is an occurrence at or after `from` with no earlier one, and None means there is no occurrence at or after `from` |
| Text.OccursAt | app.js:569 | the pattern sits in the text at a given index; characterised by IndexOfFrom and ContainsIff |
| Text.JoinSplit | app.js:741-748 | `split(sep)` followed by `join(sep)` gives the text back |
| Text.Lower | app.js:475-479 | `toLowerCase` on the ASCII letters; characterised by LowerAppend and LowerIdempotent |
| Text.LowerChar | app.js:475-479 | `toLowerCase` on one character, ASCII letters only; characterised by LowerIdempotent |
| Text.LowerAppend | app.js:475 | lowercasing a concatenation lowercases each part |
| Text.LowerIdempotent | app.js:475-479 | lowercasing lowercased text changes nothing |
| Text.IndexOf | app.js:483-486 | `indexOf(pat)`: the first occurrence from the start; characterised by IndexOfFrom |
| Text.Contains | app.js:483-486 | `includes(pat)`; characterised by ContainsIff and ContainsInAppend |
| Text.ContainsIff | app.js:483-486 | `includes` holds exactly when the pattern occurs at some index |
| Text.ContainsInAppend | app.js:475-486 | a pattern found in either part of a concatenation is found in the whole |
| Text.ReplaceFirst | app.js:731 | `replace(str, rep)` with a string pattern; characterised by ReplaceFirstInverse |
| Text.ReplaceFirstInverse | app.js:731 | without an occurrence the text is unchanged; otherwise only the first occurrence is replaced, the text before it is kept, and putting the pattern back in place of the replacement gives the text again |
| Text.PrefixBeforeFirst | app.js:741 | the text before the first occurrence of a non-empty pattern holds no occurrence |
| Text.Split | app.js:741 | `split(sep)` with a non-empty string separator gives at least one part; characterised by JoinSplit and SplitPartsFree |
| Text.SplitPartsFree | app.js:741 | no part of `split(sep)` holds the separator |
| Text.Join | app.js:748 | `join(sep)`; characterised by JoinSplit (the inverse of split) and EntryExtractor.JoinLinesNormalized |
| Text.StripDelimited | app.js:636 | removing `open…close` groups never lengthens the text, adds no character, and leaves no `open` followed later by a `close` |
| Text.StripDelimitedNoGroup | app.js:636 | text with no `open` followed later by a `close` is left unchanged |
| Text.StripDelimitedGroup | app.js:636 | the leftmost group, from the first `open` to the first `close` after it, is removed and the text before it is kept |
| Text.Words | app.js:452-453 | `split(/\s+/)` on trimmed text: every word is non-empty and contains no whitespace |
| Text.WordsSplitText | app.js:452-453 | the words and the whitespace runs around them (non-empty between two words) interleave back to exactly the text |
| Text.WordsOfInterleave | app.js:452-453 | words separated by whitespace runs are exactly the words read back from the joined text |
| Calendar.DaysInMonth | app.js:670 | every month has 28 to 31 days |
| Calendar.IsLeapYear | app.js:670 | the Gregorian leap-year rule; characterised by DaysInMonth and MonthLength |
| Calendar.MakeDate | app.js:670 | `Date.UTC` gives a time value inside the ±8.64e15 ms range, exactly the start of the rolled-over day with the two-digit-year rule, or NaN |
| Calendar.FullYear | app.js:670 | years 0 to 99 are taken as 1900 to 1999; characterised by MakeDate and QueryEngine.MonthBoundIsMonthInstant |
| Calendar.MakeDay | app.js:670 | the day number of a year, month and day with roll-over; characterised by MakeDayIsMonthStart and DayWithinItsMonth |
| Calendar.MakeDayIsMonthStart | app.js:670 | `MakeDay` is the start of month number `12 * year + month` plus the day offset, whatever the roll-over |
| Calendar.MonthLength | app.js:670 | consecutive month starts are exactly one month length apart |
| Calendar.MonthStartBounds | app.js:670 | a month start lies between 28 and 31 days per elapsed month from January 1970 |
| Calendar.MonthStartIncreasing | app.js:832 | a later month starts at least 28 days per month later |
| Calendar.MonthStartMonotone | app.js:832 | month starts never decrease with the month number |
| Calendar.DayWithinItsMonth | app.js:670 | a real day of a month falls between that month's start and the next month's start |
| Calendar.DayInstantWithinItsMonth | app.js:670 | the instant of a real day lies within its month's instants |
| DateResolver.CleanDateText | app.js:634-638 | the cleaned label is normalised and no longer than the raw label |
| DateResolver.CleanDateTextWords | app.js:634-638 | the cleaned label is the words of the label with its parenthesised remarks removed, joined by single spaces |
| DateResolver.CleanDateTextNoRemarks | app.js:634-638 | a label without a `(`…`)` remark is only whitespace-normalised |
| DateResolver.KeepDateChars | app.js:651 | `replace(/[^0-9/.-]/g, "")`: only digits and separators remain, nothing remains exactly when the text has none, and a text of date characters only is unchanged |
| DateResolver.IsDateChar | app.js:651 | the characters `[0-9/.-]`; characterised by KeepDateChars |
| DateResolver.KeepDateCharsAppend | app.js:651 | characters are kept or dropped one at a time: the result for a concatenation is the results for its parts, concatenated |
| DateResolver.NumericOnly | app.js:651 | the date characters of the cleaned label, trimmed; characterised by KeepDateChars and KeepDateCharsAppend, and used by ParseDate |
| DateResolver.DigitRun | app.js:661 | the run from a position stays inside the text |
| DateResolver.DigitRunMaximal | app.js:661 | the run from a position is all digits and no digit follows it |
| DateResolver.MonthDayYearAt | app.js:661-665 | a match at the position has the M/D/Y shape there (one or two digits, a separator, one or two digits, a separator, a greedy two-to-four-digit year) and is made of those three groups |
| DateResolver.MonthDayYearGroups | app.js:661-665 | the month and day groups read at most 99 and the year group at most 9999 |
| DateResolver.MonthDayYearAtShape | app.js:661-665 | wherever the M/D/Y shape holds, the match is there and is made of its three groups, so a match exists exactly where the shape holds |
| DateResolver.IsSeparator | app.js:661 | the separator class `[/.-]`; characterised by MonthDayYearAtShape and MonthYearAtShape |
| DateResolver.MonthYearAt | app.js:676-679 | a match at the position has the month/year shape there (one or two digits, a separator, four digits) and is made of those two groups |
| DateResolver.MonthYearGroups | app.js:676-679 | the month group reads at most 99 and the year group at most 9999 |
| DateResolver.MonthYearAtShape | app.js:676-679 | wherever the month/year shape holds, the match is there and is made of its two groups, so a match exists exactly where the shape holds |
| DateResolver.DigitsBound | app.js:661 | a run of at most n digits has a value below 10^n |
| DateResolver.MatchBounds | app.js:661-665 | the leftmost M/D/Y match keeps these bounds |
| DateResolver.FindMonthDayYear | app.js:661 | `match` with the M/D/Y pattern: the leftmost position where MonthDayYearAt matches; characterised by MatchBounds and MonthDayYearResolves |
| DateResolver.FindMonthYear | app.js:676 | `match` with the month/year pattern: the leftmost position where MonthYearAt matches; characterised by MonthYearResolves |
| DateResolver.CenturyYear | app.js:666-668 | a year below 100 is read as 20xx, any other is kept; characterised by MonthDayYearResolves |
| DateResolver.NumericFallback | app.js:661-687 | the M/D/Y fallback, then the month/year fallback; characterised by ReachesNumericFallback, MonthDayYearResolves, MonthDayYearIsValid and MonthYearResolves |
| DateResolver.ParseDate | app.js:640-688 | an empty label gives no date; a cleaned label the general parse accepts gives that result; otherwise a non-empty date-character string the general parse accepts gives that result |
| DateResolver.ReachesNumericFallback | app.js:651-688 | when both general parses fail, the result is the M/D/Y fallback, then the month/year fallback |
| DateResolver.NoDateCharactersMeansNoDate | app.js:651-654 | a label without digits or separators that the general parse rejects has no date |
| DateResolver.MonthDayYearIsValid | app.js:670-673 | an M/D/Y date with a four-digit year is always a valid `Date`, so the month/year fallback is then never reached |
| DateResolver.MonthDayYearResolves | app.js:661-673 | an M/D/Y match resolves to the start of that day, two-digit years taken as 20xx |
| DateResolver.MonthYearResolves | app.js:676-687 | without an M/D/Y match, an M/YYYY match gives the first of that month and no match gives no date |
| EntryExtractor.BreakTagLength | app.js:735 | a recognised break at the start is `<br`, optional whitespace, an optional `/` and `>`, in any letter case |
| EntryExtractor.IsBreakTag | app.js:735 | a whole `<br\s*\/?>` tag, case-insensitive; characterised by BreakTagLength and BreakTagFound |
| EntryExtractor.BreakTagFound | app.js:735 | every `<br\s*/?>` at the start, in any case, is recognised with its full length, so a break is found exactly where that shape is |
| EntryExtractor.BreakTagWithAttribute | app.js:735 | `<br class=x>` is not a break |
| EntryExtractor.BreakTagSelfClosing | app.js:735 | `<BR />` is a break of six characters |
| EntryExtractor.ReplaceBreaksWithoutTags | app.js:735 | text without `<` has no break to replace |
| EntryExtractor.ReplaceBreaks | app.js:734-735 | every break tag, left to right, replaced by the placeholder; characterised by BreakTagLength, BreakTagFound and ReplaceBreaksWithoutTags |
| EntryExtractor.StripTags | app.js:738 | removing tags never lengthens the text and leaves no `<` followed later by `>` |
| EntryExtractor.StripTagsNoTag | app.js:738 | text without a `<` followed later by `>` is unchanged |
| EntryExtractor.StripTagsTag | app.js:738 | the leftmost tag is removed and the text before it is kept |
| EntryExtractor.NormalizeAll | app.js:744-745 | every segment is normalised and none is dropped, so empty lines of double breaks survive |
| EntryExtractor.NormalizeAllWords | app.js:744-745 | line i is the words of segment i joined by single spaces |
| EntryExtractor.JoinTwoLines | app.js:748 | joining two texts of normalised lines with a newline keeps every line normalised |
| EntryExtractor.JoinLinesNormalized | app.js:741-748 | joining normalised segments with newlines gives text whose every line is normalised |
| EntryExtractor.TrimLinesNormalized | app.js:748 | trimming text of normalised lines keeps its lines normalised |
| EntryExtractor.RowContentShape | app.js:728-748 | a row's content has normalised lines and no whitespace at either end |
| EntryExtractor.RowContent | app.js:727-748 | the row's HTML without the `<strong>` element, breaks turned into line feeds, tags stripped, each line normalised, trimmed; characterised by RowContentShape |
| EntryExtractor.RowEntry | app.js:715-758 | the entry one data row yields; characterised by RowEntryWellFormed and ExtractRow |
| EntryExtractor.FindIndexFrom | app.js:703-705 | `findIndex`: the first index passing the test, or None when none does |
| EntryExtractor.FindIndexIs | app.js:703-705 | an index that passes, with none before it, is what `findIndex` returns |
| EntryExtractor.FirstMarker | app.js:703-705 | the marker row is the first row whose normalised text contains the marker |
| EntryExtractor.IsMarkerRow | app.js:703-705 | a row whose normalised text contains the marker; characterised by FirstMarker, NoMarkerNoEntries and RowsAfterMarker |
| EntryExtractor.MarkerTest | app.js:703-705 | the `findIndex` callback; characterised by FirstMarker |
| EntryExtractor.RowEntryWellFormed | app.js:714-758 | an extracted entry has a date, non-empty content, a normalised label and normalised content lines |
| EntryExtractor.RowEntriesOfEntry | app.js:714-758 | a row contributes its entry when it has one and nothing otherwise |
| EntryExtractor.RowEntries | app.js:714-758 | the entries one row contributes, none or one; characterised by RowEntriesOfEntry |
| EntryExtractor.GatherStep | app.js:714 | one more row appends its own entries |
| EntryExtractor.GatherAppend | app.js:714-759 | the entries of consecutive runs of rows concatenate |
| EntryExtractor.EntriesOfStep | app.js:714-759 | the entries of the rows up to j+1 are those up to j, followed by row j's |
| EntryExtractor.EntriesOfAppend | app.js:714-759 | extraction works row by row, in document order |
| EntryExtractor.EntriesOf | app.js:714-759 | the entries of the data rows in document order; characterised by EntriesOfStep, EntriesOfAppend and EntriesOfWellFormed |
| EntryExtractor.NoMarkerNoEntries | app.js:707-709 | a document without a marker row has no entries |
| EntryExtractor.RowsAfterMarker | app.js:703-712 | only the rows after the first marker row count, and the rows before it never do |
| EntryExtractor.EntriesOfWellFormed | app.js:714-759 | every entry of any rows is well formed |
| EntryExtractor.GatherKeeps | app.js:714-759 | a property of every row's entries holds of all the entries gathered |
| EntryExtractor.DocumentEntriesWellFormed | app.js:701-762 | every entry extracted from a document is well formed |
| EntryExtractor.DocumentEntries | app.js:701-762 | the entries of the rows after the first marker row; characterised by NoMarkerNoEntries, RowsAfterMarker, DocumentEntriesWellFormed and GetEntriesFromDocument |
| EntryExtractor.GetEntriesFromDocument | app.js:701-762 | the method returns the document's entries after the marker row |
| EntryExtractor.CollectEntries | app.js:711-761 | the `forEach` loop collects every data row's entry in order |
| EntryExtractor.ExtractRow | app.js:715-758 | one row's steps: skip rows without `<strong>`, date or content, else build the entry |
| EntryExtractor.FindIndex | app.js:703-709 | the `findIndex` loop returns the first passing index or -1 |
| SearchQuery.NextQuoteChar | app.js:437 | the result is a `"` at or after the position |
| SearchQuery.NextQuoteCharFirst | app.js:437 | no `"` lies between the position and the result, and None means there is no `"` at or after the position |
| SearchQuery.QuoteAt | app.js:437 | a phrase match at p exists exactly when p holds a quote, another quote follows, and at least one character lies between them |
| SearchQuery.QuoteAtNoInnerQuote | app.js:437 | a phrase match ends at the first quote after its opening quote |
| SearchQuery.NextQuote | app.js:441 | `exec` finds a phrase match at or after its index |
| SearchQuery.NextQuoteLeftmost | app.js:441 | no phrase match starts between the index and the one found, and None means none starts at or after the index |
| SearchQuery.QuotedSpans | app.js:437-446 | the global regex's matches lie at or after the start, each holds at least one character, and they are in order and never overlap |
| SearchQuery.QuotedSpansComplete | app.js:437-446 | every position where a phrase match could start lies inside one of the global matches, so no phrase is missed |
| SearchQuery.QuotedSpansAfter | app.js:437-446 | each match starts after the closing quote of the one before it |
| SearchQuery.RemoveQuoted | app.js:449 | removing the phrases never lengthens the query, and without a match the rest is unchanged |
| SearchQuery.RemoveQuotedReplacesSpans | app.js:449 | `replace(/"[^"]+"/g, " ")` turns each phrase match into one space and keeps the text between and after the matches |
| SearchQuery.PhraseTerms | app.js:442-445 | a phrase gives at most one exact term, trimmed and non-empty |
| SearchQuery.IsTrimmedNonEmpty | app.js:442-445 | non-empty text with no whitespace at either end, what a kept trimmed term is; characterised by PhraseTerms and KeywordsShape |
| SearchQuery.PhraseTermsExact | app.js:442-445 | a phrase gives no term exactly when its inside is all whitespace, and otherwise exactly one exact term holding its trimmed inside |
| SearchQuery.ExactTerms | app.js:441-446 | at most one exact term per phrase, each trimmed and non-empty |
| SearchQuery.ExactTermsAt | app.js:441-446 | the exact terms are, match by match in order, the phrase terms of each match |
| SearchQuery.KeywordTerms | app.js:452-457 | one non-exact term per word, in order, keeping the word |
| SearchQuery.ParsedQuery | app.js:428-460 | a blank query has no terms; exact terms come before keywords; every term is trimmed and non-empty; keywords contain no whitespace |
| SearchQuery.ParsedQueryParts | app.js:428-460 | every query parses to the exact terms of all its phrase matches, in order, followed by one keyword per word of the query with each match replaced by a space |
| SearchQuery.KeywordsShape | app.js:452-457 | the words of a query make non-exact, trimmed, whitespace-free terms |
| SearchQuery.ExactThenKeywords | app.js:446-457 | exact terms followed by keywords keep the order and shape guarantees |
| SearchQuery.ExactTermsAppend | app.js:441-446 | the exact terms of consecutive matches concatenate |
| SearchQuery.NoQuotesNoMatches | app.js:438-449 | a query without quotes has no phrase match, and removing phrases leaves it unchanged |
| SearchQuery.NoQuotesGivesKeywords | app.js:428-460 | a query without quotes parses to exactly its whitespace-separated words, as keywords |
| SearchQuery.ExactTermsStep | app.js:441-446 | one `exec` step adds the current phrase's term and continues after its closing quote |
| SearchQuery.CollectExactTerms | app.js:437-446 | the `exec` loop collects exactly the exact terms of all phrase matches |
| SearchQuery.AppendKeywords | app.js:452-457 | the `forEach` appends one keyword per word |
| SearchQuery.ParseSearchQuery | app.js:428-460 | `parseSearchQuery` returns the parsed query |
| SearchContext.SplitKeepingSpaces | app.js:583 | `split(/(\s+)/)` always yields at least one token |
| SearchContext.SplitKeepingSpacesAlternates | app.js:583 | the tokens alternate between runs without whitespace and runs of whitespace |
| SearchContext.SplitKeepingSpacesConcat | app.js:583 | the tokens concatenate back to the content, so token offsets are content offsets |
| SearchContext.ConcatLength | app.js:588-595 | the joined length of the tokens is the sum of their lengths |
| SearchContext.TotalLengthAppend | app.js:588-595 | token lengths add up across concatenation |
| SearchContext.LocateToken | app.js:588-595 | the token found is the one whose character range holds the offset, and None means the offset is past the end |
| SearchContext.IsWordIsTrimNonEmpty | app.js:602 | `w.trim().length > 0` holds exactly when the token has a non-whitespace character |
| SearchContext.IsWord | app.js:602 | a token with a non-whitespace character; characterised by IsWordIsTrimNonEmpty |
| SearchContext.WordCount | app.js:605-622 | a token sequence has at most as many words as tokens |
| SearchContext.WordCountAppend | app.js:605-622 | word counts add up across concatenation |
| SearchContext.StartIndex | app.js:605-612 | the excerpt never starts after the match token |
| SearchContext.WordCountSnoc | app.js:605-612 | one more token at the end adds one word exactly when it is a word |
| SearchContext.WordCountPrefix | app.js:605-612 | the same fact for prefixes |
| SearchContext.WordCountCons | app.js:615-622 | one more token at the front adds one word exactly when it is a word |
| SearchContext.TakenStep | app.js:605-622 | taking a word uses one unit of the budget |
| SearchContext.WordCountSuffix | app.js:615-622 | the same fact for suffixes |
| SearchContext.StartIndexWindow | app.js:605-612 | the excerpt starts on a word (or at the match) and holds exactly `min(wordsAround, words available)` words before the match token |
| SearchContext.StartIndexOnWord | app.js:605-612 | the backward walk stops on a word |
| SearchContext.StartIndexCount | app.js:605-612 | the backward walk takes exactly the budgeted number of words, or all that are available |
| SearchContext.StartIndexCountWord | app.js:608-610 | the word-token case of that count |
| SearchContext.StartIndexCountSpace | app.js:605-612 | the whitespace-token case of that count |
| SearchContext.EndIndex | app.js:615-622 | the excerpt never ends before the match token and stays inside the tokens |
| SearchContext.EndIndexWindow | app.js:615-622 | the excerpt ends on a word (or at the match) and holds exactly `min(wordsAround, words available)` words after the match token |
| SearchContext.EndIndexOnWord | app.js:615-622 | the forward walk stops on a word |
| SearchContext.EndIndexCount | app.js:615-622 | the forward walk takes exactly the budgeted number of words, or all that are available |
| SearchContext.EndIndexCountWord | app.js:618-620 | the word-token case of that count |
| SearchContext.EndIndexCountSpace | app.js:615-622 | the whitespace-token case of that count |
| SearchContext.EarliestMatch | app.js:567-575 | the offset is an occurrence of some lowercased term with no occurrence of any term before it, and None means no term occurs |
| SearchContext.MatchIsInsideContent | app.js:588-597 | a match offset always falls inside some token |
| SearchContext.ExcerptNoneIff | app.js:557-632 | there is no excerpt exactly when the content or the terms are empty or no term occurs in the content |
| SearchContext.FindFirstMatch | app.js:566-575 | the `forEach` records the earliest match offset, or -1 |
| SearchContext.IndexOrMinusOne | app.js:566-575 | `-1` standing for no index; characterised by FindFirstMatch |
| SearchContext.FindMatchToken | app.js:586-595 | the token loop finds the token holding the offset, or -1 |
| SearchContext.StartIndexStep | app.js:605-612 | one step of the backward walk |
| SearchContext.EndIndexStep | app.js:615-622 | one step of the forward walk |
| SearchContext.WalkBack | app.js:604-612 | the backward loop computes the start index |
| SearchContext.WalkForward | app.js:614-622 | the forward loop computes the end index |
| SearchContext.ExcerptAssembled | app.js:604-631 | the start and end indices bound a valid token window, and the excerpt is that window |
| SearchContext.Window | app.js:624-631 | tokens `s..e` joined and trimmed, with `...` before when `s > 0` and after when `e` is not the last token; characterised by ExcerptAssembled and BuildWindow |
| SearchContext.Excerpt | app.js:557-632 | the whole `getSearchContext`; characterised by ExcerptNoneIff, ExcerptAssembled, StartIndexWindow and EndIndexWindow |
| SearchContext.BuildWindow | app.js:604-631 | the walks and the join with ellipses produce the window |
| SearchContext.GetSearchContext | app.js:557-632 | `getSearchContext` returns the excerpt |
| QueryEngine.Filter | app.js:474 | `filter` never lengthens a sequence |
| QueryEngine.FilterElements | app.js:474 | `filter` keeps exactly the elements that pass, each no more often than before |
| QueryEngine.FilterAppend | app.js:474 | `filter` preserves order: filtering a concatenation concatenates the filtered parts |
| QueryEngine.FilterCongruent | app.js:474 | filters that agree on the elements give the same result |
| QueryEngine.AnyTermOccurs | app.js:478-488 | an entry matches exactly when some lowercased term occurs in its searchable text |
| QueryEngine.SearchableText | app.js:475 | the content, one space and the date label, lowercased; characterised by SearchableTextParts |
| QueryEngine.SearchableTextParts | app.js:475 | the searchable text is the lowercased content and the lowercased date label around one space, so a term found in either one is found in it |
| QueryEngine.MatchesSearch | app.js:474-489 | the filter callback of `filterBySearch`; characterised by AnyTermOccurs and ExactnessIrrelevant |
| QueryEngine.FilterBySearch | app.js:469-490 | no terms keep every entry; otherwise exactly the entries where some term occurs in content or date label are kept |
| QueryEngine.FilterBySearchAppend | app.js:474-489 | the search filter keeps the relative order of entries |
| QueryEngine.ExactnessIrrelevant | app.js:481-487 | exact and keyword terms filter alike; only the term text matters |
| QueryEngine.IsWithinRange | app.js:821-868 | an undated entry is always within range |
| QueryEngine.DecemberCarriesYear | app.js:858-861 | the end bound of December is January 1 of the next year |
| QueryEngine.MonthBoundIsMonthInstant | app.js:829-865 | a valid month bound is the first instant of the named month, years 0-99 read as 19xx |
| QueryEngine.MonthInstant | app.js:829-865 | the first instant of a month number; characterised by MonthBoundIsMonthInstant and MonthInstantMonotone |
| QueryEngine.MonthBound | app.js:829-836 | the first instant of a month field's month (or the next one), None for an invalid `Date`; characterised by MonthBoundIsMonthInstant, DecemberCarriesYear and InvalidBoundExcludesNothing |
| QueryEngine.InRange | app.js:821-868 | the `isWithinRange` callback for the current month fields; characterised by WithinRangeIff, WithinRangeStartOnly and WithinRangeEndOnly |
| QueryEngine.WithinRangeIff | app.js:829-865 | with both bounds valid, a dated entry passes exactly when it is at or after the start month's first instant and before the first instant of the month after the end month |
| QueryEngine.WithinRangeStartOnly | app.js:829-836 | with only a valid start month, a dated entry passes exactly when it is not before that month's first instant |
| QueryEngine.WithinRangeEndOnly | app.js:858-865 | with only a valid end month, a dated entry passes exactly when it is before the first instant of the month after it |
| QueryEngine.InvalidBoundExcludesNothing | app.js:829-865 | a month field that is not a valid `Date` is ignored like an empty one |
| QueryEngine.InvertedRangeExcludesDated | app.js:838-865 | when the start month is after the end month, every dated entry is excluded |
| QueryEngine.BoundsCrossed | app.js:829-865 | when the end bound is not after the start bound, every dated entry is excluded |
| QueryEngine.MonthInstantMonotone | app.js:829-865 | a later month starts at a later or equal instant |
| QueryEngine.MalformedExcludesNothing | app.js:829-865 | a malformed month input acts as a blank one, and two malformed inputs exclude nothing |
| QueryEngine.SingleMonthRange | app.js:829-865 | an entry dated inside a month passes the range made of that month alone |
| QueryEngine.DayOfMonthInRange | app.js:829-865 | a real calendar day of a month passes the range made of that month alone |
| QueryEngine.MonthsBack | app.js:136-145 | `new Date(y, m - back, 1)` names a real month (1 to 12) exactly `back` months before the current one |
| QueryEngine.QuickChipStart | app.js:136-152 | a start month is set exactly for "3m", "6m" and "ytd"; any other range leaves a malformed field |
| QueryEngine.QuickChipSpans | app.js:131-153 | "3m" and "6m" cover the last three and six months including the current one, and "ytd" runs from December of the previous year through the current month |
| QueryEngine.QuickChipEnd | app.js:131-135 | the end field every chip sets: the current month; characterised by QuickChipSpans |
| QueryEngine.CompareAntisymmetric | app.js:1004-1016 | the comparator is antisymmetric |
| QueryEngine.NotBeforeTransitive | app.js:1004-1016 | "not before" is transitive, so the comparator is a consistent total preorder |
| QueryEngine.Compare | app.js:1004-1016 | the sort comparator: undated entries after dated ones, ascending for "oldest" and descending otherwise; characterised by CompareAntisymmetric, NotBeforeTransitive and OrderedMeaning |
| QueryEngine.Before | app.js:1004-1016 | the comparator puts the first entry strictly first; characterised by CompareAntisymmetric and OrderedMeaning |
| QueryEngine.Insert | app.js:1004-1016 | an insertion adds exactly one element |
| QueryEngine.InsertPermutes | app.js:1004-1016 | an insertion adds exactly the inserted element |
| QueryEngine.SortedByDate | app.js:1004-1016 | the sort keeps the length |
| QueryEngine.SortedByDatePermutes | app.js:1004-1016 | the sort is a permutation |
| QueryEngine.AppendOrdered | app.js:1004-1016 | appending an element that no earlier element follows keeps the order |
| QueryEngine.InsertOrdered | app.js:1004-1016 | inserting into ordered entries keeps them ordered |
| QueryEngine.InsertedPrecede | app.js:1004-1016 | after inserting before the last element, every element still precedes it |
| QueryEngine.ExtendedPrecede | app.js:1004-1016 | an element not before the last is preceded by all of them |
| QueryEngine.SortedByDateOrdered | app.js:1004-1016 | the sort output is ordered: undated entries last, dated ones oldest or newest first |
| QueryEngine.DistinctDatesCommute | app.js:1004-1016 | entries with different dates never fall in the same equal-date class |
| QueryEngine.InsertStable | app.js:1004-1016 | an insertion goes behind every entry with the same date |
| QueryEngine.SortedByDateStable | app.js:1003-1016 | the sort is stable: entries with equal dates keep their relative order |
| QueryEngine.OrderedMeaning | app.js:1006-1015 | in ordered entries, undated entries come last and dates are non-decreasing (oldest) or non-increasing (newest) |
| QueryEngine.InsertAt | app.js:1004-1016 | insertion places the element after the last entry it is not before |
| QueryEngine.ShiftGreater | app.js:1004-1016 | the shift moves the entries the new element goes before up by one, leaving the rest in place |
| QueryEngine.InsertInPlace | app.js:1004-1016 | one insertion step on the array equals the insertion on its prefix |
| QueryEngine.SortedByDateStep | app.js:1004-1016 | sorting one more element is inserting it into the sorted prefix |
| QueryEngine.SortByDate | app.js:1003-1016 | the in-place array sort leaves exactly the stable date ordering of its old content |
| QueryEngine.FilteredEntriesContents | app.js:988-1019 | the visible entries are exactly those passing the search and (unless searching with scope "all") the month range, each as often as in the source, in date order |
| QueryEngine.BaseEntriesMembers | app.js:990-997 | the base set ignores the month range exactly when there are terms and the scope is "all" |
| QueryEngine.BaseEntries | app.js:990-997 | step 1 of `getFilteredEntries`; characterised by BaseEntriesMembers |
| QueryEngine.FilteredEntries | app.js:988-1019 | steps 1-3 of `getFilteredEntries`; characterised by FilteredEntriesContents, SortedByDateOrdered and SortedByDateStable |
| QueryEngine.ShownAtMostTotal | app.js:1242-1247 | the shown count never exceeds the total count, nor the total the number of entries |
| QueryEngine.Session.constructor | app.js:178-215 | the start-up state has no entries and no terms, scope "filtered", the "ytd" range (December of last year through the current month) and the saved sort order when one is stored, newest first otherwise |
| QueryEngine.Session.ApplyQuickChip | app.js:124-160 | a quick-range chip sets both month fields from the clock and changes nothing else |
| QueryEngine.Session.GetFilteredEntries | app.js:988-1019 | returns the visible entries of the current state |
| QueryEngine.Session.StatusCounts | app.js:1242-1247 | the status line's two numbers, the shown one at most the total |
| CacheStore.Purged | app.js:298-303 | the clean-up removes exactly the keys of earlier cache versions and keeps every other value |
| CacheStore.IsOldVersionKey | app.js:298-303 | a key with the cache prefix that is not the current key; characterised by Purged and PurgeKeepsCurrent |
| CacheStore.PurgeKeepsCurrent | app.js:298-303 | the current cache record and unrelated keys survive the clean-up, and old-version keys do not |
| CacheStore.RecordValidIff | app.js:279-293 | a record written by `saveToCache` passes validation exactly when its timestamp is non-zero and its source URL non-empty |
| CacheStore.ValidateCacheData | app.js:279-293 | the record check; characterised by RecordValidIff and InvalidRecordIsCorrupt |
| CacheStore.EntryRoundTrip | app.js:250-324 | an entry written to the cache reads back as the same entry |
| CacheStore.EntryJson | app.js:250-255 | an entry as `JSON.stringify` sees it, an unresolved date being `null`; characterised by EntryRoundTrip |
| CacheStore.RecordJson | app.js:250-255 | the `{ entries, timestamp, sourceUrl }` object that is stringified; characterised by RecordValidIff and SaveThenLoad |
| CacheStore.StoredText | app.js:250-255 | the text written under the cache key; characterised by SaveThenLoad and BrowserCache.SaveToCache |
| CacheStore.RehydratedDate | app.js:321-324 | `entry.date ? new Date(entry.date) : null`; characterised by RehydratedOnlyFromTruthy and EntryRoundTrip (invalid dates: see "## Left out") |
| CacheStore.RehydratedOnlyFromTruthy | app.js:321-324 | a date is rehydrated only from a truthy stored value, and a non-empty date string goes through the date parse |
| CacheStore.RehydratedEntry | app.js:321-324 | one rehydrated entry; characterised by EntryRoundTrip (rehydrating a written entry gives it back) |
| CacheStore.SaveThenLoad | app.js:242-346 | a saved record loads back as the same entries, timestamp and URL: fresh within 24 hours, stale after that when allowed, and not at all otherwise |
| CacheStore.InvalidRecordIsCorrupt | app.js:311-345 | unparseable or invalid stored text is treated as corrupt |
| CacheStore.Lookup | app.js:307-340 | the reading part of `loadFromCache`; characterised by SaveThenLoad and InvalidRecordIsCorrupt |
| CacheStore.NatToString | app.js:375 | a number's decimal text is non-empty and all digits |
| CacheStore.IntToString | app.js:375 | `toString()` of an integer is non-empty |
| CacheStore.LeadingDigits | app.js:368 | the count is the maximal run of leading digits |
| CacheStore.NatToStringValue | app.js:368-375 | a number's decimal text reads back as that number |
| CacheStore.AllDigitsLeading | app.js:368 | a string of digits is read in full |
| CacheStore.ParseInt | app.js:368 | `parseInt(s, 10)`; characterised by LeadingDigits, AllDigitsLeading and ParseIntToString |
| CacheStore.ParseIntToString | app.js:368-375 | `parseInt` of a number's `toString()` is the number |
| CacheStore.NextLoadWithinThreshold | app.js:359-381 | after a recorded load, the next load is a double refresh exactly when it comes less than 15 seconds later |
| CacheStore.FirstLoadIsNotDouble | app.js:361-376 | with no recorded load, no load is a double refresh |
| CacheStore.IsDoubleRefresh | app.js:362-372 | the double-refresh test; characterised by NextLoadWithinThreshold and FirstLoadIsNotDouble |
| CacheStore.BrowserCache.constructor | app.js:224-227 | starts from the given storages with no cache timestamp |
| CacheStore.BrowserCache.ClearCache | app.js:348-356 | removes the current record and the cache timestamp, nothing else |
| CacheStore.BrowserCache.SaveToCache | app.js:242-277 | writes the record; on a quota error removes the record and retries once; other write errors leave storage unchanged |
| CacheStore.BrowserCache.PurgeOldVersions | app.js:298-303 | deletes the earlier versions' keys and nothing else |
| CacheStore.BrowserCache.LoadFromCache | app.js:295-346 | returns the purged storage's fresh (or allowed stale) record; a corrupt record is removed |
| CacheStore.BrowserCache.CheckDoubleRefresh | app.js:359-381 | reports a double refresh exactly when the recorded load is less than 15 seconds old; otherwise records this load, unless that write fails, which is caught and still answers false |
| CsvExport.EscapeQuotes | app.js:1102-1103 | escaping never shortens a field |
| CsvExport.EscapeRoundTrip | app.js:1102-1103 | undoing the quote doubling gives the text back |
| CsvExport.EscapedQuotesPaired | app.js:1102-1103 | every quote of an escaped text is part of a doubled pair, as RFC 4180 requires inside a quoted field |
| CsvExport.PairedIsEscaped | app.js:1102-1103 | every text whose quotes are paired is the escaping of its reading, so escaping is onto the paired texts |
| CsvExport.FieldRoundTrip | app.js:1102-1103 | every written field reads back as its text |
| CsvExport.EmptyFieldUnquoted | app.js:1102-1103 | an empty field is written without quotes; every other field is quoted |
| CsvExport.Field | app.js:1102-1103 | a written field; characterised by FieldRoundTrip and EmptyFieldUnquoted |
| CsvExport.Row | app.js:1102-1104 | one entry's line: date field, comma, content field, LF; characterised by RowsEndInLineFeed |
| CsvExport.Rows | app.js:1100-1105 | the lines of all entries in order; characterised by RowsEndInLineFeed, RowsStep and BuildCsv |
| CsvExport.RowsEndInLineFeed | app.js:1100-1105 | each entry adds exactly its own line, ending in LF |
| CsvExport.RowsStep | app.js:1100-1105 | one more entry appends its line |
| CsvExport.BuildCsv | app.js:1095-1105 | the export is the header followed by one line per entry in order |
| ProxyUrl.BuildProxyUrl | app.js:784-793 | a blank base gives no URL; otherwise the trimmed base, then `?url=` unless the base has a `?` (nothing then), then the encoded target, each part character for character |
| ProxyUrl.QuerySeparator | app.js:789-792 | `?url=` unless the base already has a `?`, nothing then; characterised by BuildProxyUrl and NoQueryUrl |
| ProxyUrl.NoQueryUrl | app.js:789-792 | a non-blank base without `?` gives exactly the trimmed base, `?url=` and the encoded target |
| ProxyUrl.ProxyUrlTargetParam | app.js:789-792 | for a base without `?`, the URL's query string starts right after the base and is `url=` followed by the encoded target |
| ProxyUrl.ProxyUrlHasQuery | app.js:784-793 | every proxy URL carries a query string |
| ProxyUrl.BaseIsTrimmed | app.js:785-788 | whitespace around the configured base makes no difference |
| ProxyHttp.Revalidated | workers/index.js:97-115 | a cache hit keeps the stored status and body and gets fresh CORS headers |
| ProxyHttp.ForceRefresh | workers/index.js:89-90 | `Cache-Control` exactly `no-cache` or `no-store`; characterised by WorkerGate.ForcedIgnoresCache and LegacyWorkerGate.ForcedIgnoresCache |
| ProxyHttp.CacheControlFor | workers/index.js:140-142 | `public, max-age=86400` for 2xx, `no-cache, no-store` otherwise; characterised by WorkerGate.StoredIsGenuine and both FetchPath lemmas |
| ProxyHttp.IsOk | workers/index.js:135 | `upstream.ok`, a status from 200 to 299; characterised by WorkerGate.FetchPath, WorkerGate.StoredIsGenuine and LegacyWorkerGate.FetchPath |
| ProxyHttp.MissingParam | workers/index.js:64 | `!targetUrl`: the parameter is absent or empty; characterised by WorkerGate.RejectionOrder and both AdmittedIff lemmas |
| ProxyHttp.ContentTypeOf | workers/index.js:138 | the upstream `Content-Type`, or `text/html` when it is absent or empty; characterised by WorkerGate.FetchedContentType |
| ProxyHttp.CacheKeyOf | workers/index.js:94 | the cache key is the target's serialisation; characterised by both CacheHitServed lemmas and both EdgeCache.Serve methods |
| WorkerGate.BuildCorsHeaders | workers/index.js:27-36 | an allowed origin is echoed, any other gets the first allowed origin, so the header never names an unlisted origin |
| WorkerGate.OriginOf | workers/index.js:52 | the `Origin` header, or the empty text when it is absent; characterised by CorsOriginOfRequest |
| WorkerGate.CorsOriginOfRequest | workers/index.js:27-52 | a request is answered with its own `Origin` when that is on the allow-list, and with the first allowed origin when the header is absent or unlisted |
| WorkerGate.ErrorResponse | workers/index.js:38-49 | `errorResponse(message, status, origin)`; characterised by ErrorsAreJson and InvalidPageIsJson |
| WorkerGate.ErrorsAreJson | workers/index.js:38-86 | a rejected request gets the JSON error object with its status, `Content-Type: application/json`, no `Cache-Control`, the CORS headers of its origin, and nothing is stored |
| WorkerGate.InvalidPageIsJson | workers/index.js:126-131 | a fetched 2xx page without the marker gets the JSON error object with status 502, and nothing is stored |
| WorkerGate.FetchedContentType | workers/index.js:136-138 | a page passed on keeps the upstream `Content-Type`, or gets `text/html` when there is none or it is empty |
| WorkerGate.PreflightFirst | workers/index.js:54-59 | OPTIONS gets 204 with CORS headers before any validation, and nothing is stored |
| WorkerGate.RejectionOrder | workers/index.js:61-86 | a missing parameter, an unparseable URL or a non-HTTP(S) protocol gives 400, and a host not allowed gives 403, in that order |
| WorkerGate.AdmittedIff | workers/index.js:54-86 | exactly non-preflight requests naming a parseable HTTP(S) URL on an allowed host are admitted |
| WorkerGate.Admit | workers/index.js:54-86 | the request checks in their order; characterised by RejectionOrder and AdmittedIff |
| WorkerGate.ForcedIgnoresCache | workers/index.js:89-90 | `no-cache`/`no-store` requests get the same answer whatever the cache holds |
| WorkerGate.CacheHitServed | workers/index.js:97-115 | without a forced refresh a cached page is served without asking the network, and nothing is stored |
| WorkerGate.FetchPath | workers/index.js:118-150 | a 2xx page without the marker is a 502 and not stored; otherwise the upstream status and body pass through, stored and cacheable exactly when 2xx |
| WorkerGate.StoredIsGenuine | workers/index.js:128-156 | only 2xx responses containing the page marker are ever stored, cacheable for a day |
| WorkerGate.FromUpstream | workers/index.js:118-150 | the answer built from the upstream page; characterised by FetchPath and StoredIsGenuine |
| WorkerGate.Handle | workers/index.js:51-159 | the whole handler; characterised by PreflightFirst, RejectionOrder, ForcedIgnoresCache, CacheHitServed, FetchPath and StoredIsGenuine |
| WorkerGate.EdgeCache.constructor | workers/index.js:93 | the edge cache starts empty |
| WorkerGate.EdgeCache.Serve | workers/index.js:51-159 | answers as the handler does and puts exactly the stored response under the target's key |
| LegacyWorkerGate.BuildCorsHeaders | cloudflare-worker.js:19-23 | every response allows any origin |
| LegacyWorkerGate.ErrorResponse | cloudflare-worker.js:25-35 | `errorResponse(message, status)`; characterised by ErrorsAreJson |
| LegacyWorkerGate.ErrorsAreJson | cloudflare-worker.js:25-65 | a rejected request gets the JSON error object with its status, `Content-Type: application/json`, no `Cache-Control`, the wildcard CORS headers, and nothing is stored |
| LegacyWorkerGate.PreflightFirst | cloudflare-worker.js:39-44 | OPTIONS gets 204 with CORS headers, and nothing is stored |
| LegacyWorkerGate.WildcardOrigin | cloudflare-worker.js:19-23 | every response of the earlier revision carries `*` as the allowed origin |
| LegacyWorkerGate.AdmittedIff | cloudflare-worker.js:39-65 | exactly non-preflight requests naming a parseable URL on an allowed host are admitted, whatever the scheme |
| LegacyWorkerGate.Admit | cloudflare-worker.js:39-65 | the earlier revision's request checks, without a protocol check; characterised by AdmittedIff, LaterRevisionNarrowsAdmission and FtpTargetAdmitted |
| LegacyWorkerGate.ForcedIgnoresCache | cloudflare-worker.js:68-69 | a forced refresh never consults the cache |
| LegacyWorkerGate.CacheHitServed | cloudflare-worker.js:76-94 | without a forced refresh a cached page is served and nothing is stored |
| LegacyWorkerGate.FetchPath | cloudflare-worker.js:97-131 | the upstream status and body pass through unchecked, stored exactly when 2xx, `no-cache, no-store` otherwise |
| LegacyWorkerGate.FromUpstream | cloudflare-worker.js:97-131 | the answer built from the upstream page; characterised by FetchPath |
| LegacyWorkerGate.Handle | cloudflare-worker.js:38-132 | the whole handler; characterised by PreflightFirst, WildcardOrigin, ForcedIgnoresCache, CacheHitServed and FetchPath |
| LegacyWorkerGate.LaterRevisionNarrowsAdmission | workers/index.js:75-78 | the later revision admits only what the earlier admits, differing exactly on non-HTTP(S) targets, which it answers with 400 |
| LegacyWorkerGate.FtpTargetAdmitted | cloudflare-worker.js:46-65 | an `ftp:` URL on an allowed host passes the earlier gate and fails the later one |
| LegacyWorkerGate.EdgeCache.constructor | cloudflare-worker.js:72 | the edge cache starts empty |
| LegacyWorkerGate.EdgeCache.Serve | cloudflare-worker.js:38-132 | answers as the handler does and puts exactly the stored response under the target's key |

## Left out

- The DOM, rendering, highlighting (`renderHighlightedText`), event wiring, the PDF export and the download of the CSV file: user interface only. Rows of the fetched document are given as values holding their text, inner HTML and `<strong>` element.
- The network, `fetch`, promises and timers: the upstream page, the clock and the outcome of each `setItem` are parameters.
- CacheStore.BrowserCache.LoadFromCache: a storage access that throws (storage disabled or denied) is not modelled. The source catches it, clears the cache and returns `null` (app.js:341-345); the model's storage reads always succeed.
- WorkerGate.EdgeCache.Serve: an upstream `fetch` that rejects (a network error, workers/index.js:118) is not modelled. The source does not catch it, so the platform answers with its own error; the model's upstream always answers with a status and a body. The same holds for LegacyWorkerGate.EdgeCache.Serve (cloudflare-worker.js:97).
- Local time: the month-range bounds use `new Date(y, m, 1)` in the local time zone, and the model takes that zone to be UTC.
- Case folding: `toLowerCase` is modelled on ASCII letters only. Full Unicode lowercasing can change a string's length and shift the match offsets of `getSearchContext`; the model does not capture this.
- The general `Date` string parse, `JSON.stringify`/`JSON.parse`, `Date.prototype.toJSON`, `encodeURIComponent` and `new URL(...)` are parameters, not modelled.
- JSON numbers are integers; a cached timestamp with a fractional part is not modelled.
- CacheStore.IntToString: integers are written in plain decimal digits. JavaScript's `Number#toString` switches to exponent form from 1e21 on, where `parseInt` would read back only the leading digit. The values written are clock times, at most 8.64e15 in absolute value, so ParseIntToString holds for every value the application stores; the model does not capture larger numbers.
- CacheStore.RehydratedDate: a stored date that `new Date` cannot turn into a valid instant (an unparseable string, a number outside ±8.64e15 ms, an object) is taken as no date (None), and so is every array. In JavaScript it is a truthy invalid `Date`. Such a `Date` passes every month range, as an undated entry does. But the sort comparator then returns NaN, which `sort` treats as 0, so it compares equal to every dated entry instead of going last (app.js:1004-1015). An array whose string form parses even gives a valid `Date`.
- CacheStore.BrowserCache.SaveToCache: the unused `html` parameter and storage exceptions other than the quota error are not distinguished. Any other failed write leaves storage unchanged, as the catch-and-log does.
- The `X-Cached-At` timestamp is a parameter. The edge cache's own `max-age` expiry, header copying other than the ones modelled, and the pretty-printing of the `errorResponse` JSON (modelled as its message) are not modelled.
- QueryEngine.IsWithinRange: the block for a start month after the end month (app.js:838-855) computes nothing that affects the result, so the model has no counterpart for it. InvertedRangeExcludesDated states the resulting behaviour.
- SearchContext.EarliestMatch: `matchLength` is recorded by the source but never used, so it is not modelled; which of several terms at the same offset wins does not affect the excerpt.
- QueryEngine.SortByDate: `Array.prototype.sort` is modelled as a stable insertion sort on an array. The engine's algorithm is not visible, but ECMAScript requires a stable sort, and the stable order under a consistent comparator is unique.
- Month inputs are an abstract `MonthInput` (blank, malformed, or a year and month) rather than the text of the `<input type="month">`.
- QueryEngine.Session.constructor: the clock's year is taken to be at least 100, as any current date's is, so `new Date(year, month, 1)` never applies the two-digit-year rule to it. A saved sort value that is not one of the select's options is kept as the sort order. The select would then show no option, and in both cases the order is newest first, since only "oldest" sorts ascending.
- Rendering and closing the panels after a quick-range chip (app.js:155-167) are user interface only.

# Anox time tracker: verified model of the core helpers

This project models in Dafny the pure and small stateful helpers of the Anox
time tracker, in its web client and its Django server, and proves what they
promise.

- **Pagination** (`pagination.dfy`, web `util/pagination.ts`):
  - the page-bound questions `hasPreviousPage` and `hasNextPage`, with the
    error they raise on a non-positive field;
  - the page count `countPages`;
  - the pager's window generator `generatePages`. It is a method with the
    source's loops, proved equal to a specification function `Window`. The
    lemmas about `Window` cover its shape, its length, the current page
    being in it, its page numbers increasing, and the source's test table.
- **Sort order** (`order.dfy`, web `util/order.ts`): `toggleOrder` and
  `sortOrderFromString`. The lemmas cover the none → ascending → descending
  cycle and the source's tests.
- **Durations** (`duration.dfy`, web `components/duration/util.ts`):
  `formatDuration` is a method with the source's sequence of appends. It is
  proved to print a text that reads back to the same number of seconds, and
  that shows a unit letter exactly when that component is non-zero.
- **Colours** (`color.dfy`, web `util/color.ts`): `parseApiColor`.
- **Server utilities** (`timeutils.dfy`, `timetracker/utils.py`):
  - `to_canonical_name` (lower-case, then strip white space);
  - `start_of_next_day` on naive date-times, with Python's calendar and
    year range;
  - `split_datetimes_across_days`, a method with the source's loop, proved
    equal to a recursive specification.
- **Data import helpers** (`importdata.dfy`, `importdata.py`):
  - the `TagConsolidator` class, which holds the tag-id remapping table;
  - `ensure_task_canonical_name`, a method that renames a task until its
    canonical name is free, over `Task` and `NameSet` objects;
  - `chunker`, `format_color` and `file_name_to_file_type`.
- **Shared modules**:
  - `wrappers.dfy`: `Option` and `Result`, for Python exceptions and
    JavaScript throws;
  - `text.dfy`: `endsWith`;
  - `decimal.dfy`: the decimal printing of a natural number, which both
    sides use, with its parser and the round trip between them.

## Model

| member | source | states |
|---|---|---|
| Pagination.ValidPageable | web/src/util/pagination.ts:7-10 | the fields the page questions accept: page, pageSize and count all positive; such a pageable has at least one page |
| Pagination.CountPages | web/src/util/pagination.ts:112-114 | the page count is the ceiling of count / pageSize: (n-1)·pageSize < count ≤ n·pageSize |
| Pagination.CountPagesUnique | web/src/util/pagination.ts:112-114 | exactly one page count meets that bound, so the ceiling is determined |
| Pagination.HasPreviousPage | web/src/util/pagination.ts:7-13 | fails exactly when page, pageSize or count is not positive; otherwise true iff the page is not the first |
| Pagination.HasNextPage | web/src/util/pagination.ts:15-21 | fails exactly when a field is not positive; otherwise true iff the page is before the last counted page |
| Pagination.NextPageIffBeforeLast | web/src/util/pagination.ts:15-21 | page·pageSize < count iff page < countPages(pageSize, count) |
| Pagination.Window | web/src/util/pagination.ts:40-110 | empty iff there are no pages or no room; never more items than maxItems; all pages in order when they fit |
| Pagination.GeneratePages | web/src/util/pagination.ts:40-110 | the method with the source's loops returns exactly Window(page, pages, maxItems) |
| Pagination.PageNumbersAppend | web/src/util/pagination.ts:40-110 | the page numbers of a concatenated window are those of its parts |
| Pagination.WindowShowsCurrentPageInRange | web/src/util/pagination.ts:40-110 | for a page that exists, the window shows it, and every page number it shows is between 1 and pages |
| Pagination.GeneralRunInside | web/src/util/pagination.ts:95-104 | in the general branch the middle run lies within 2 … pages-2, so it never repeats the first or last page |
| Pagination.WindowLength | web/src/util/pagination.ts:56-110 | the exact number of items in each branch: 1, maxItems, 3 or 5 + 2·⌊(maxItems-5)/2⌋ |
| Pagination.PageNumbersOfItems | web/src/util/pagination.ts:80-92 | page numbers of one-, two- and three-item windows |
| Pagination.PageNumbersOfRun | web/src/util/pagination.ts:62-64 | a run of page items carries consecutive page numbers |
| Pagination.IncreasingAppend | web/src/util/pagination.ts:40-110 | joining two increasing number lists, the first ending below the second's start, is increasing |
| Pagination.OrderedNearStart | web/src/util/pagination.ts:60-68 | near the start the window shows 1 … maxItems-2 and then the last page, in increasing order |
| Pagination.OrderedNearEnd | web/src/util/pagination.ts:70-77 | near the end the window shows 1 and then the last maxItems-2 pages, in increasing order |
| Pagination.OrderedGeneral | web/src/util/pagination.ts:95-109 | in the general branch it shows 1, a run centred on the page, and the last page, in increasing order |
| Pagination.FramedNumbers | web/src/util/pagination.ts:95-109 | a run framed by page 1 and a gap on the left and by a gap and the last page on the right has 1, the run's numbers, and the last page as its numbers |
| Pagination.FramedIncreasing | web/src/util/pagination.ts:95-109 | an increasing run above 1 and below the last page stays increasing once framed by them |
| Pagination.OrderedSmall | web/src/util/pagination.ts:79-93 | with 3 or 4 items and an inner page, the numbers shown increase unless the page is the last, which is then shown twice |
| Pagination.WindowOrdered | web/src/util/pagination.ts:40-110 | for an existing page the shown page numbers strictly increase, except exactly when maxItems = 3 and the page is the last of more than 3 |
| Pagination.WindowExamples | web/src/util/pagination.test.ts:74-158 | the source's table of generatePages cases |
| Pagination.WindowEmptyGap | web/src/util/pagination.ts:95-109 | page 2 of 10 with 5 items shows a gap marker between pages 1 and 2 that hides no page |
| Pagination.PagerWindowInRange | web/src/util/pagination.ts:7-21 | with the page count from countPages, the window shows the current page, and showing its neighbour agrees with hasNextPage and hasPreviousPage |
| Order.ToggleOrder | web/src/util/order.ts:7-17 | a missing or empty value, or one not ending in the name, toggles to the neutral name |
| Order.SortOrderFromString | web/src/util/order.ts:19-29 | NONE iff the value is missing, empty or does not end in the name; DESCENDING iff it also starts with `-` |
| Order.ToggleExamples | web/src/util/order.test.ts:4-20 | name → -name, -name → name, undefined → name for every plain field name |
| Order.ToggleTwice | web/src/util/order.ts:7-17 | toggling twice from ascending returns to ascending |
| Order.ToggleCycle | web/src/util/order.ts:7-29 | toggling moves NONE to ASCENDING, ASCENDING to DESCENDING, and DESCENDING to its value without the `-` |
| Order.ToggleNeverNoOrder | web/src/util/order.ts:7-29 | whatever the current value, the toggled value sorts by the field |
| Duration.Decompose | web/src/components/duration/util.ts:4-8 | days, hours < 24, minutes < 60 and seconds < 60 add back up to the duration |
| Duration.DecomposeExact | web/src/components/duration/util.ts:5-8 | the source's own floor/modulo formulas give hours < 24 and add back up to the duration |
| Duration.Words | web/src/components/duration/util.ts:10-24 | splitting a text on spaces gives at least one word |
| Duration.WordsOfWord | web/src/components/duration/util.ts:10-24 | a word with no space splits into itself |
| Duration.WordsPrefix | web/src/components/duration/util.ts:10-24 | a word followed by a space and a rest splits into that word and the rest's words |
| Duration.LettersAppend | web/src/components/duration/util.ts:10-24 | the unit letters of a concatenation are those of its parts |
| Duration.LettersOfNat | web/src/components/duration/util.ts:13-24 | a printed number holds no unit letter |
| Duration.NoSpaceInNat | web/src/components/duration/util.ts:13-24 | a printed number holds no space |
| Duration.UnitWordFacts | web/src/components/duration/util.ts:13-24 | a printed component such as `12h` reads back as its seconds, has no space, and its one letter is its unit |
| Duration.ParseWordsCons | web/src/components/duration/util.ts:12-24 | a readable word in front of readable words adds its seconds to theirs |
| Duration.PartReads | web/src/components/duration/util.ts:12-22 | an optional component is empty when zero, and otherwise one readable word worth value·unit seconds followed by a space |
| Duration.PrefixThenReads | web/src/components/duration/util.ts:12-24 | such a component in front of a readable rest reads back as the sum of their seconds |
| Duration.ReadsBackThree | web/src/components/duration/util.ts:12-24 | three such components in front of a readable rest read back as the sum of all four |
| Duration.SecondsReadBack | web/src/components/duration/util.ts:24 | the seconds word alone, such as `5s`, reads back as the seconds |
| Duration.PartLetters | web/src/components/duration/util.ts:12-22 | an optional component holds its unit letter exactly when it is non-zero, and no other letter |
| Duration.LettersOfFour | web/src/components/duration/util.ts:10-24 | the unit letters of four joined parts are those of the parts |
| Duration.ReadsBackParts | web/src/components/duration/util.ts:10-26 | the four printed components read back as days·86400 + hours·3600 + minutes·60 + seconds |
| Duration.UnitWord | web/src/components/duration/util.ts:13-24 | a component printed as its number followed by its unit letter, at least two characters |
| Duration.Part | web/src/components/duration/util.ts:12-22 | an optional component is empty exactly when it is zero, and otherwise ends with a space |
| Duration.Render | web/src/components/duration/util.ts:10-26 | the text formatDuration builds from the four components always ends with `s` |
| Duration.RenderReadsBack | web/src/components/duration/util.ts:10-26 | the rendered text reads back as the components' total |
| Duration.DecomposeReadsBack | web/src/components/duration/util.ts:10-26 | rendering the components Decompose computes for any duration reads back as that same duration |
| Duration.RenderLetters | web/src/components/duration/util.ts:10-26 | the rendered text shows d, h and m exactly for the non-zero components, and always s |
| Duration.NamedUnits | web/src/components/duration/util.ts:10-26 | a text whose unit letters are the non-zero units and `s` contains d, h and m exactly for those units |
| Duration.RenderUnits | web/src/components/duration/util.ts:12-22 | the rendered text contains d, h and m exactly when that component is non-zero |
| Duration.RenderSplit | web/src/components/duration/util.ts:10-24 | the rendered text is the days, hours and minutes parts and the seconds word, joined in that order |
| Duration.RenderEnds | web/src/components/duration/util.ts:24-26 | the rendered text ends with the seconds and `s`, and is only that when days, hours and minutes are zero |
| Duration.UnderAMinute | web/src/components/duration/util.ts:5-8 | under 60 seconds the days, hours and minutes are zero and the seconds are the duration |
| Duration.DivModOf | web/src/components/duration/util.ts:5-8 | floor division is unique: q·d + r with 0 ≤ r < d divides by d as q, remainder r |
| Duration.PartText | web/src/components/duration/util.ts:12-22 | a non-zero component prints as its number, its unit letter and a space; a zero one prints nothing |
| Duration.RenderDuration | web/src/components/duration/util.ts:4-27 | the formatted text reads back as the duration; d/h/m appear iff that component is non-zero; it ends with the seconds and `s`; under a minute it is just the seconds |
| Duration.FormatDuration | web/src/components/duration/util.ts:4-27 | the method takes the components of Decompose (lines 5-8) and appends as the source does; its text is the rendering of the decomposition, reads back as the duration, shows a unit iff it is non-zero, and ends in seconds |
| Color.ParseApiColor | web/src/util/color.ts:5-7 | the html colour is `#` followed by the API colour unchanged |
| Color.ParseApiColorInjective | web/src/util/color.ts:5-7 | different API colours give different html colours |
| Color.ParseApiColorDoublePrefix | web/src/util/color.ts:5-7 | a colour that already has a `#` gets a second one |
| Color.ParseApiColorExample | web/src/util/color.test.ts:5-7 | FF0000FF becomes #FF0000FF |
| Decimal.NatToString | web/src/components/duration/util.ts:13 | a natural number prints as a non-empty run of digits with no leading zero, one digit iff it is below 10 |
| Decimal.ParseNatToString | server/anox/timetracker/management/commands/importdata.py:84-91 | a printed counter reads back as itself |
| Decimal.NatToStringInjective | server/anox/timetracker/management/commands/importdata.py:84-91 | different counters print differently |
| TimeTrackerUtils.LowerChar | server/anox/timetracker/utils.py:4-5 | lower-casing leaves no upper-case letter, maps A-Z 32 code points down, and keeps white space |
| TimeTrackerUtils.Lower | server/anox/timetracker/utils.py:4-5 | lower-casing keeps the length, works letter by letter, leaves no upper case, and changes nothing already lower-case |
| TimeTrackerUtils.IsSpace | server/anox/timetracker/utils.py:5 | the characters `str.strip()` removes: space, tab, newline and carriage return among them, no ASCII letter or digit |
| TimeTrackerUtils.StripStart | server/anox/timetracker/utils.py:5 | the front half of `strip()`: never longer, and the result does not start with white space |
| TimeTrackerUtils.StripEnd | server/anox/timetracker/utils.py:5 | the back half of `strip()`: never longer, and the result does not end with white space |
| TimeTrackerUtils.StripStartDrops | server/anox/timetracker/utils.py:4-5 | the result is a suffix, what was dropped is all white space, and it does not start with white space |
| TimeTrackerUtils.StripEndDrops | server/anox/timetracker/utils.py:4-5 | the result is a prefix, what was dropped is all white space, and it does not end with white space |
| TimeTrackerUtils.Strip | server/anox/timetracker/utils.py:4-5 | the stripped text neither starts nor ends with white space |
| TimeTrackerUtils.StripStartOf | server/anox/timetracker/utils.py:4-5 | stripping the front of spaces + text returns that text |
| TimeTrackerUtils.StripEndOf | server/anox/timetracker/utils.py:4-5 | stripping the end of text + spaces returns that text |
| TimeTrackerUtils.StripExactly | server/anox/timetracker/utils.py:4-5 | stripping white space + trimmed text + white space returns the trimmed text |
| TimeTrackerUtils.StripParts | server/anox/timetracker/utils.py:4-5 | every text is white space + its stripped form + white space |
| TimeTrackerUtils.StripDecomposes | server/anox/timetracker/utils.py:4-5 | the same, as an existence statement |
| TimeTrackerUtils.LowerAppend | server/anox/timetracker/utils.py:4-5 | lower-casing distributes over concatenation |
| TimeTrackerUtils.AllSpaceAppend | server/anox/timetracker/utils.py:4-5 | white space joined to white space is white space |
| TimeTrackerUtils.LowerOfSpace | server/anox/timetracker/utils.py:4-5 | lower-casing white space gives white space |
| TimeTrackerUtils.ToCanonicalName | server/anox/timetracker/utils.py:4-5 | the canonical name has no upper case and no white space at either end |
| TimeTrackerUtils.CanonicalPadding | server/anox/timetracker/utils.py:4-5 | the lower-cased name is white space, the canonical name, and white space: only white space is removed, at the two ends |
| TimeTrackerUtils.StripNoUpper | server/anox/timetracker/utils.py:4-5 | stripping a text with no upper case leaves none |
| TimeTrackerUtils.LowerUnchanged | server/anox/timetracker/utils.py:4-5 | lower-casing a text with no upper case changes nothing |
| TimeTrackerUtils.StripTrimmed | server/anox/timetracker/utils.py:4-5 | stripping a text with no outer white space changes nothing |
| TimeTrackerUtils.CanonicalIdempotent | server/anox/timetracker/utils.py:4-5 | the canonical name of a canonical name is itself |
| TimeTrackerUtils.CanonicalIgnoresPadding | server/anox/timetracker/utils.py:4-5 | white space around a name does not change its canonical name |
| TimeTrackerUtils.CanonicalOfLower | server/anox/timetracker/utils.py:4-5 | a lower-case trimmed name is its own canonical name |
| TimeTrackerUtils.CanonicalIgnoresCase | server/anox/timetracker/utils.py:4-5 | names equal up to case have the same canonical name |
| TimeTrackerUtils.LowerCapital | server/anox/timetracker/utils.py:4-5 | "CaPitAl" and "capital" lower-case to the same text |
| TimeTrackerUtils.LowerPadded | server/anox/timetracker/utils.py:4-5 | "  spa ce   " has no upper case, so lower-casing keeps it |
| TimeTrackerUtils.CanonicalOfPadded | server/anox/timetracker/utils.py:4-5 | "  spa ce   " canonicalises to "spa ce" |
| TimeTrackerUtils.CanonicalExamples | server/anox/timetracker/tests/test_utils.py:13-15 | "CaPitAl" → "capital" and "  spa ce   " → "spa ce" |
| TimeTrackerUtils.DaysBeforeNewYear | server/anox/timetracker/utils.py:8-11 | the days before December plus December's 31 make the year's length |
| TimeTrackerUtils.AddDay | server/anox/timetracker/utils.py:9 | adding a day overflows exactly on 9999-12-31; otherwise it is the next valid date with the time kept |
| TimeTrackerUtils.StartOfNextDay | server/anox/timetracker/utils.py:8-11 | overflows exactly on the last day Python can hold; otherwise midnight of the next date, a valid date-time that follows `when` by one day |
| TimeTrackerUtils.Less | server/anox/timetracker/utils.py:31 | Python's `<` on naive datetimes, field by field; a datetime is never before itself |
| TimeTrackerUtils.LessStrictTotal | server/anox/timetracker/utils.py:31 | that `<` is asymmetric, total on different datetimes and transitive |
| TimeTrackerUtils.NextDayIsNext | server/anox/timetracker/utils.py:8-11 | for any later date, the start of the next day comes no later than it |
| TimeTrackerUtils.StartOfNextDayExamples | server/anox/timetracker/tests/test_utils.py:17-32 | Nov 23 → Nov 24, Nov 30 → Dec 1, Dec 31 2000 → Jan 1 2001, and year 9999's last day overflows |
| TimeTrackerUtils.DateKeyOrders | server/anox/timetracker/utils.py:43-47 | an integer key on dates that grows with the calendar, the loop's termination measure |
| TimeTrackerUtils.ConsPair | server/anox/timetracker/utils.py:39-47 | prepending a start and a midnight keeps the list chained, ordered, valid and its inner entries at midnight |
| TimeTrackerUtils.SplitLoop | server/anox/timetracker/utils.py:43-50 | the source's loop, guarded on the day of the month, produces a list from mid to end |
| TimeTrackerUtils.SplitLoopShape | server/anox/timetracker/utils.py:43-50 | that list is chained in pairs, ordered, valid, and all but its last entry are midnights |
| TimeTrackerUtils.SplitAsWritten | server/anox/timetracker/utils.py:14-52 | raises ValueError exactly when end < start; otherwise the list runs from start to end |
| TimeTrackerUtils.SplitAsWrittenShape | server/anox/timetracker/utils.py:14-52 | the list is chained in pairs, ordered, valid, and its inner entries are midnights |
| TimeTrackerUtils.SplitFirstDay | server/anox/timetracker/utils.py:37-41 | across days, the list starts with start and the next midnight, then the loop's list |
| TimeTrackerUtils.SplitLoopStep | server/anox/timetracker/utils.py:43-47 | one loop step adds mid and the next midnight and moves mid forward towards end |
| TimeTrackerUtils.SplitDatetimesAcrossDays | server/anox/timetracker/utils.py:14-52 | the method with the source's while loop returns exactly SplitAsWritten(start, end) |
| TimeTrackerUtils.SplitLoopByDate | server/anox/timetracker/utils.py:43-50 | the loop guarded on the whole date produces a list from mid to end |
| TimeTrackerUtils.SplitAcrossDays | server/anox/timetracker/utils.py:14-52 | raises ValueError exactly when end < start; otherwise a list from start to end |
| TimeTrackerUtils.ConsDayPair | server/anox/timetracker/utils.py:39-47 | prepending a pair within one day keeps every pair within one day |
| TimeTrackerUtils.SplitLoopByDateStep | server/anox/timetracker/utils.py:43-47 | one step of the corrected loop adds mid and the next midnight |
| TimeTrackerUtils.SplitLoopByDateShape | server/anox/timetracker/utils.py:43-50 | the corrected loop's list is chained, ordered, valid, with inner midnights |
| TimeTrackerUtils.SplitLoopByDateDays | server/anox/timetracker/utils.py:43-50 | every pair of the corrected loop lies within one day, two entries per calendar day |
| TimeTrackerUtils.SplitFirstDayByDate | server/anox/timetracker/utils.py:37-41 | the corrected list starts with start and the next midnight, a pair within one day |
| TimeTrackerUtils.SplitAcrossDaysByDay | server/anox/timetracker/utils.py:15-30 | the corrected split's pairs each lie within one day; it is ordered, valid, has inner midnights, and has two entries per calendar day spanned |
| TimeTrackerUtils.SplitLoopWithinMonth | server/anox/timetracker/utils.py:43 | within one month the day-of-month guard and the date guard run the same loop |
| TimeTrackerUtils.SplitAcrossSeveralDays | server/anox/timetracker/utils.py:14-52 | across several days the corrected split is in pairs each within one day, with two entries per calendar day |
| TimeTrackerUtils.SplitAcrossSeveralDaysShape | server/anox/timetracker/utils.py:14-52 | across several days the corrected split's pairs meet end to start, run forward in time, are valid datetimes and are cut at midnights |
| TimeTrackerUtils.SplitWithinMonth | server/anox/timetracker/utils.py:14-52 | within one month the source's split equals the corrected split |
| TimeTrackerUtils.SplitExamples | server/anox/timetracker/tests/test_utils.py:34-66 | the same-day, end-before-start and three-day cases of the source's tests |
| TimeTrackerUtils.ThreeDaySplit | server/anox/timetracker/tests/test_utils.py:34-66 | Nov 23 0:00 → Nov 25 13:00 splits as [start, Nov 24, Nov 24, Nov 25, Nov 25, end] |
| TimeTrackerUtils.SpansTwoDays | server/anox/timetracker/utils.py:43 | the list [Jan 30 12:00, Jan 31, Jan 31, Feb 2 12:00] has a pair that is not within one day |
| TimeTrackerUtils.AcrossFourDays | server/anox/timetracker/utils.py:14-52 | in any year, Jan 30 12:00 → Feb 2 12:00 splits into 8 entries, two per day |
| TimeTrackerUtils.SplitAsWrittenSpansDays | server/anox/timetracker/utils.py:43 | Jan 30 12:00 → Feb 2 12:00 gives [start, Jan 31, Jan 31, end], whose last pair spans two days; the corrected split has 8 entries |
| ImportData.Consolidate | server/anox/timetracker/management/commands/importdata.py:33-49 | add as written: old_id is mapped to new_id, and every entry is either new_id or its old value |
| ImportData.ConsolidateIsUpdate | server/anox/timetracker/management/commands/importdata.py:33-50 | add only ever sets old_id → new_id: keys already pointing at new_id are rewritten to the same value |
| ImportData.TargetId | server/anox/timetracker/management/commands/importdata.py:52-56 | an id that is not mapped is its own target |
| ImportData.ConsolidateTargets | server/anox/timetracker/management/commands/importdata.py:33-56 | after add, old_id is mapped and targets new_id, every other id keeps its target, and the keys grow by old_id |
| ImportData.Redirect | server/anox/timetracker/management/commands/importdata.py:34-42 | the comment's intent: old_id is sent to new_id's target, and every entry is either that target or its old value |
| ImportData.RedirectResolves | server/anox/timetracker/management/commands/importdata.py:34-42 | unless new_id already leads back to old_id, the redirect the comment describes keeps every lookup final, sends old_id and whatever pointed at it to new_id's target, keeps new_id's own target, and leaves other targets alone; new_id may itself be mapped |
| ImportData.RedirectThroughMappedId | server/anox/timetracker/management/commands/importdata.py:573-576 | the caller keeping B over A, then A over C: add(C, A) while A → B is mapped; the redirect sends C to B and stays final, add as written leaves C on A |
| ImportData.ConsolidateLeavesStaleTarget | server/anox/timetracker/management/commands/importdata.py:38-50 | the comment's own example: from Cat → cat, add(cat, CAT) leaves Cat → cat, a target that is itself remapped |
| ImportData.UpdatedKeys | server/anox/timetracker/management/commands/importdata.py:44-50 | setting the collected keys to new_id produces the consolidated table |
| ImportData.TagConsolidator.constructor | server/anox/timetracker/management/commands/importdata.py:30-31 | the table starts empty |
| ImportData.TagConsolidator.Add | server/anox/timetracker/management/commands/importdata.py:33-50 | the table becomes the consolidated table, which is the old table with old_id set to new_id; old_id is then mapped to new_id |
| ImportData.TagConsolidator.GetTargetId | server/anox/timetracker/management/commands/importdata.py:52-56 | a mapped id gives its table entry, any other id itself |
| ImportData.TagConsolidator.IsMapped | server/anox/timetracker/management/commands/importdata.py:58-59 | whether the tag was merged into another; an id that is not mapped is its own target |
| ImportData.LastIndexOf | server/anox/timetracker/management/commands/importdata.py:122 | none iff the character is absent; otherwise an index holding it with none after it |
| ImportData.LastIndexOfIs | server/anox/timetracker/management/commands/importdata.py:122 | an index holding the character with none after it is the last index |
| ImportData.FileNameToFileType | server/anox/timetracker/management/commands/importdata.py:121-123 | raises ValueError exactly when the name has no `_`; otherwise the name is the result, `_`, and a rest without `_` |
| ImportData.FileTypeOfName | server/anox/timetracker/management/commands/importdata.py:121-123 | a name built as kind, `_`, and a rest without `_` gives back exactly that kind |
| ImportData.FileNameExamples | server/anox/timetracker/management/commands/importdata.py:121-123 | tags_1.json → tags, time_entries_12.json → time_entries, tags.json raises |
| ImportData.RenamedDescription | server/anox/timetracker/management/commands/importdata.py:84 | the new description starts with "Original name: " and the name, and ends with the old description |
| ImportData.Suffixed | server/anox/timetracker/management/commands/importdata.py:86-92 | the renamed name ends with `__` and the counter; untrimmed, it starts with the whole name; trimmed, it keeps the length of a name long enough to trim |
| ImportData.DropLast | server/anox/timetracker/management/commands/importdata.py:87-88 | s[:-k] is the prefix without the last k characters, or empty when k ≥ len(s) |
| ImportData.SuffixedNumber | server/anox/timetracker/management/commands/importdata.py:84-91 | the counter reads back from the number after the last `_` of a renamed name |
| ImportData.SuffixedInjective | server/anox/timetracker/management/commands/importdata.py:84-91 | renamed names for different counters differ, shortened or not |
| ImportData.TakenShrinks | server/anox/timetracker/management/commands/importdata.py:81-93 | a taken renamed name leaves fewer taken names with a counter still to try, so the loop ends |
| ImportData.TakenMonotone | server/anox/timetracker/management/commands/importdata.py:81-93 | raising the counter never adds names still to try |
| ImportData.SubsetSize | server/anox/timetracker/management/commands/importdata.py:81-93 | a proper subset of the taken names is smaller |
| ImportData.Task.constructor | server/anox/timetracker/management/commands/importdata.py:77-80 | a task holds its name, canonical name and description |
| ImportData.NameSet.constructor | server/anox/timetracker/management/commands/importdata.py:77 | the set of taken canonical names |
| ImportData.EnsureTaskCanonicalName | server/anox/timetracker/management/commands/importdata.py:77-96 | a Task record ends with a canonical name not taken before, which is then added; a free name is left untouched; a taken one gets the "Original name" description and a `__counter` rename of both names, shortened or not, with the same counter |
| ImportData.Chunker | server/anox/timetracker/management/commands/importdata.py:103-104 | a step of zero raises ValueError; a negative one gives no chunks |
| ImportData.Chunks | server/anox/timetracker/management/commands/importdata.py:103-104 | the slices for a positive size: none exactly when the input is empty |
| ImportData.ChunksFlatten | server/anox/timetracker/management/commands/importdata.py:103-104 | the chunks joined back together are the input |
| ImportData.ChunksSizes | server/anox/timetracker/management/commands/importdata.py:103-104 | every chunk holds between 1 and size items, and all but the last exactly size |
| ImportData.ChunksCount | server/anox/timetracker/management/commands/importdata.py:103-104 | there are ⌈len / size⌉ chunks |
| ImportData.ColorBody | server/anox/timetracker/management/commands/importdata.py:112-114 | a leading `#` is dropped, anything else is kept |
| ImportData.FormatColor | server/anox/timetracker/management/commands/importdata.py:111-118 | an empty colour raises IndexError; a colour is returned iff its body has 6 characters, and it is then the body followed by `00` |
| ImportData.FormatColorDropsAlpha | server/anox/timetracker/management/commands/importdata.py:116-118 | an 8-character colour, with or without `#`, gives None; a 6-character one gets `00` |
| ImportData.FormatColorKeepingAlpha | server/anox/timetracker/management/commands/importdata.py:111-118 | an empty colour raises IndexError; on 6-character bodies it agrees with format_color |
| ImportData.FormatColorKeepingAlphaFits | server/anox/timetracker/management/commands/importdata.py:111-118 | a 6- or 8-character body gives an 8-character colour that starts with the body, and an 8-character body is kept as it is |

## Left out

- The React components, routing, network and authentication code, the
  Django models, views, serializers and managers, and the import command's
  record handlers (`handle_*`, `Command.handle`, `UserCache`,
  `ensure_tags_have_unqiue_names`, `format_timestamp`). They are database,
  framework and I/O code around the helpers modelled here.
- `clientToApiColor` is not part of this model. The colour file modelled
  holds only `parseApiColor`.
- Pagination.CountPages: requires a positive page size. The source divides
  JavaScript numbers, so a zero page size gives Infinity or NaN. Floating
  point is not modelled, and all counts are whole numbers.
- Pagination.GeneratePages: page counts and item limits are natural
  numbers. Negative or fractional JavaScript numbers are not modelled.
- Pagination.HasPreviousPage, Pagination.HasNextPage and Pagination.CountPages:
  the fields of a `Pageable` are whole numbers. A fractional JavaScript
  number, such as page 1.5, is not modelled.
- Duration.FormatDuration and Pagination.CountPages: model unbounded whole
  numbers. JavaScript doubles lose precision above 2^53 and print values of
  1e21 and above in exponent form; neither is modelled.
- Duration.FormatDuration: the duration is a natural number of seconds.
  For negative or fractional numbers JavaScript's `Math.floor` and `%`
  behave differently, and that is not modelled.
- TimeTrackerUtils.Lower: lower-cases only A-Z. Python's `str.lower`
  also maps other Unicode letters, some of them to longer strings. The
  white space `strip()` removes is Python's `str.isspace` set, by code
  point.
- TimeTrackerUtils.StartOfNextDay and TimeTrackerUtils.SplitDatetimesAcrossDays:
  model naive date-times only. Time zones, daylight-saving and `fold` are
  not modelled.
- ImportData.TagConsolidator.Add: the table is a map, so the model does not
  capture the order in which Python iterates a dict. The result does not
  depend on that order.
- ImportData.EnsureTaskCanonicalName: does not state that the chosen
  counter is the smallest one whose renamed name is free. It states that
  the name is free, is added to the set, and is a renaming of the original
  names with one counter.
- ImportData.Chunker: the Python generator is lazy. The model returns the
  list of all chunks at once.
- Database writes (`save`, `bulk_create`), the clock (`now`) and the file
  system that the import command reads are left out.

## Findings

| source | as written | input that shows it | evidently intended | confidence | as-written member | corrected member |
|---|---|---|---|---|---|---|
| server/anox/timetracker/utils.py:43 | the loop continues while `mid.day < end.day`, comparing the day of the month only | start 2000-01-30 12:00, end 2000-02-02 12:00: the result is [start, Jan 31 0:00, Jan 31 0:00, end], and its last pair spans Jan 31 to Feb 2 | loop while mid's date is before end's date, giving one pair per calendar day (8 entries here) | not executed | TimeTrackerUtils.SplitAsWrittenSpansDays | TimeTrackerUtils.SplitAcrossDaysByDay |
| server/anox/timetracker/management/commands/importdata.py:44-50 | `add` rewrites the keys whose value already equals `new_id`, which changes nothing | the comment's example: table {Cat: cat}, add(cat, CAT) leaves Cat → cat while cat → CAT | rewrite the keys whose value is `old_id` to where `new_id` leads, so Cat → CAT as the comment says, and a later add(C, A) with A → B sends C to B | not executed | ImportData.ConsolidateLeavesStaleTarget | ImportData.RedirectResolves |
| server/anox/timetracker/management/commands/importdata.py:116-118 | only a 6-character colour is returned; any other length falls off the end and gives None | "ff0000ff" or "#ff0000ff", a colour with an alpha component (RRGGBBAA), gives None, although `format_color` is declared to return `str` | keep an 8-character colour as it is and pad a 6-character one | not executed | ImportData.FormatColorDropsAlpha | ImportData.FormatColorKeepingAlpha |

# Nichinoken monthly schedule reader — a Dafny model

The repository reads the monthly schedule sheet of the Nichinoken cram school. It starts from a
document-layout OCR response: the page's text, and for each block a text segment and a
normalised bounding polygon. From that it builds the list of events for one school year (grade
1 to 6). Each event is a calendar date and the text of a schedule cell.

It then formats the events as calendar links and groups them into messages of a few events each.

The pipeline, as modelled here:

1. **Words** (`Nichinoken.__read_response`). Each block becomes a word: its stripped text, the
   centre of its box, its width and its height.
2. **Target year and month** (`__get_info_from_filename`, `__extract_month`).
   - They come from a `…YYMM?json` file name.
   - Failing that, the month comes from the first `<digits>月号` marker in the text. The year
     is then the current year.
3. **Date column** (`__calc_date_column_Xcoord`). The median x-centre of the words whose whole
   text is a one- or two-digit day number.
4. **Date rows** (`__extract_dates_row_Ycoords`). Each word close to the date column that reads
   as a day (`d`, or `m/d`) gives a date.
   - The date is paired with the word's y-centre.
   - The first word seen for a date wins.
5. **Sorting and gap filling** (`dict(sorted(…))`, `__interpolate_missing_dates`).
   - Missing days between recorded dates are inserted.
   - Their y-centres are interpolated linearly.
6. **Grade column and events** (`__extract_school_year_column_Xcoord`, `__search_date`,
   `__extract_schedule`).
   - Each word in the grade's column that mentions a target keyword, and no ignored phrase,
     becomes an event.
   - The event is dated by the date row nearest to the word vertically (ties go to the first
     row).
7. **Messages** (`main.build_urls`, `main.build_messages`).
   - Each event gets a label `YYYY-MM-DD（曜） name` and a Google Calendar template URL.
   - The label+URL items are split into `ceil(n / 3)` nearly equal, consecutive groups. Each
     group is joined into one message.

The modules follow that structure:

| module | file | content |
|---|---|---|
| `Outcomes` | `outcomes.dfy` | `Option`, `Result` and the exceptions that can be raised |
| `Text` | `text.dfy` | digits, `str(int)`, zero padding, `in`, `replace`, `split(" ")[0]`, `strip`, Python slicing, `join` |
| `Calendar` | `calendar.dfy` | `datetime.date`: validity, proleptic ordinal, ordering, `+ timedelta`, `weekday()`, `str()` |
| `Words` | `words.dfy` | the OCR response, `OcrWord`, `Event`, `__read_response` |
| `FileInfo` | `fileinfo.dfy` | `__get_info_from_filename`, `__extract_month` |
| `DateColumn` | `datecolumn.dfy` | `__calc_date_column_Xcoord`, `np.median` |
| `DateRows` | `daterows.dfy` | `__extract_dates_row_Ycoords`, the insertion-ordered date dictionary, `dict(sorted(…))` |
| `Interpolation` | `interpolation.dfy` | `__interpolate_missing_dates` and pandas' linear `interpolate()` |
| `GradeSchedule` | `schedule.dfy` | the keyword tables, the grade column, `__search_date`, `__extract_schedule` |
| `Pipeline` | `pipeline.dfy` | `get_schedule_list` |
| `Messages` | `messages.dfy` | `build_urls`, `build_messages` |

Modelling choices:

- **Loops.** Each loop of `lib/nichinoken.py` and `main.py` is a Dafny `method` with a `while` loop and invariants.
  The method is proved equal to a specification function, and what the Python code promises is
  lemmas about that function.
- **The Python dictionary.**
  - The date → y-centre dictionary is a sequence of `Row`s with unique dates, in insertion
    order.
  - `dict(sorted(…))` is an insertion sort on dates.
  - pandas' NaN is `None`.
  - Coordinates are `real`.
- **Errors.** Every exception the core raises is an `Err` value:
  - an unreadable response: a missing page, text segment or vertex (`IndexError`/`ValueError`);
  - `Target month is unknown`;
  - `Cannot find <n>年生 in words`;
  - `np.argmin` of an empty sequence;
  - in `build_messages`, division by a zero `events_per_message`, and `np.array_split` with no
    sections (an empty event list or a negative `events_per_message`).
- **Regular expressions.** Python's `$` also matches just before a final newline. That case
  is modelled wherever the Python patterns use `$`.

Two behaviours of the code worth noting; the model follows the code in both:

- `__extract_month` returns the matched digit **string**, not an integer, and
  `__extract_dates_row_Ycoords` pastes it into `f"{month}/{text}"`. So a month marker with
  three or more digits (such as `100月号`) makes every bare day number fail the date format.
  `DateRows.LongMonthSkips` states this.
- The `year` argument of `__extract_schedule` is never used. Each event's date comes from the
  date table alone.

## Model

| member | source | states |
|---|---|---|
| Words.MinOf | lib/nichinoken.py:100-102 | a vertex coordinate that is at most every vertex coordinate |
| Words.MaxOf | lib/nichinoken.py:101-103 | a vertex coordinate that is at least every vertex coordinate |
| Words.WordOf | lib/nichinoken.py:92-110 | fails exactly when the block has no text segment 0 or no vertex (with the malformed-input error); width and height are non-negative; the box centre ± half its extent encloses every vertex and touches one on each side; the text is the stripped Python slice of the page text, with startIndex defaulting to 0 |
| Words.ReadBlocks | lib/nichinoken.py:89-113 | one word per block, in block order, each the WordOf its block; fails exactly when some block is malformed |
| Words.ReadResponse | lib/nichinoken.py:88-113 | same, over the blocks of page 0; fails exactly when page 0 is missing or one of its blocks is malformed |
| Text.Strip | lib/nichinoken.py:109 | the result is no longer than the input and neither begins nor ends with white space |
| Text.StripIsSlice | lib/nichinoken.py:109 | strip returns a slice s[lo..hi] of its input with only white space before lo and after hi |
| Text.PySlice | lib/nichinoken.py:109 | an in-range slice is s[start..end], a reversed one is empty, no slice is longer than s |
| Text.ReplacePipes | lib/nichinoken.py:154 | replacing each double vertical bar by "11" keeps the length, changes only vertical bars (into the digit 1), leaves no two adjacent vertical bars, and puts PipeRepaired at every position |
| Text.PipesFrom | lib/nichinoken.py:154 | the left-to-right scan of replace, started at a pair boundary, yields PipeRepaired at every later position: a bar becomes 1 exactly when it completes a pair counted from the start of its run or another bar follows it |
| Text.PipeRun | lib/nichinoken.py:154 | in a maximal run of L vertical bars, the first L - L % 2 become 1 and an odd last bar stays a bar |
| Text.FirstField | lib/nichinoken.py:155 | split(" ")[0] is the prefix of the text up to (not including) its first space |
| Text.NatToString | lib/nichinoken.py:159 | str(n) is a non-empty digit string that denotes n, without a leading zero |
| Text.ContainsIff | lib/nichinoken.py:210-213 | `p in s` holds exactly when p occurs in s at some position |
| FileInfo.MatchStart | lib/nichinoken.py:119 | a match of `(\d\d)(\d\d).json$` is a position where the pattern sits at the very end, or just before a final newline; no match means neither place holds the pattern |
| FileInfo.InfoFromFilename | lib/nichinoken.py:115-124 | (-1, -1) exactly when the name does not match; year and month are -1 together; otherwise the year is in 2000..2099 and the month in 0..99 |
| FileInfo.FilenameRoundTrip | lib/nichinoken.py:119-122 | any name ending in YY MM, one character and `json` (with or without a final newline) reads back as (2000 + YY, MM) |
| FileInfo.FilenameShape | lib/nichinoken.py:119-122 | conversely, every name from which a year is read has exactly that shape, with the year and month that were read |
| FileInfo.MonthInTextSpec | lib/nichinoken.py:129-131 | no result exactly when no position of the text starts `<digits>月号`; otherwise the digit run at the leftmost such position |
| FileInfo.MonthOfMarker | lib/nichinoken.py:129-131 | a text starting with str(n) followed by 月号 yields the month text str(n) |
| FileInfo.ExtractMonth | lib/nichinoken.py:126-134 | no month exactly when no word has a month marker; otherwise the marker month of the first word that has one |
| FileInfo.ReadMonth | lib/nichinoken.py:126-134 | the loop with its early exit returns ExtractMonth of the words |
| DateColumn.CandidateXs | lib/nichinoken.py:137-141 | every collected centre is the centre of a word whose text is a one- or two-digit day number (optionally before a final newline) |
| DateColumn.CandidateXsWord | lib/nichinoken.py:139-141 | one word contributes its centre, once, exactly when its text is a day number; with CandidateXsConcat this fixes the whole list |
| DateColumn.CandidateXsComplete | lib/nichinoken.py:139-141 | every day-number word's centre is collected, at its own place between those before and after it |
| DateColumn.CandidateXsConcat | lib/nichinoken.py:139-141 | collecting over a concatenation is the concatenation of the collections: the filter keeps words in order |
| DateColumn.CollectCandidates | lib/nichinoken.py:137-141 | the loop collects exactly CandidateXs of the words |
| DateColumn.Sort | lib/nichinoken.py:143 | a sorted permutation of the values |
| DateColumn.Median | lib/nichinoken.py:143 | no median exactly for no values (NaN); for an odd count the middle value of the sorted values, which is one of the values; for an even count the mean of the two middle sorted values |
| DateColumn.MedianHalves | lib/nichinoken.py:143 | at most half of the values lie strictly below the median and at most half strictly above |
| DateColumn.MedianPermutation | lib/nichinoken.py:143 | the median depends only on the multiset of values, not on word order |
| DateColumn.SortedUnique | lib/nichinoken.py:143 | two sorted orderings of the same values are equal |
| DateColumn.DateColumnX | lib/nichinoken.py:136-143 | the date column is the median of CandidateXs of the words |
| DateRows.Normalize | lib/nichinoken.py:153-155 | the normalised text is the bar-repaired text (PipeRepaired at each position) up to its first space, and contains no space |
| DateRows.MonthDayOfText | lib/nichinoken.py:164-167 | a text `m/d` of one- or two-digit parts (optionally before a final newline) parses to (int(m), int(d)) |
| DateRows.MonthDayShape | lib/nichinoken.py:164-167 | conversely, every text that parses has exactly that shape and those values |
| DateRows.DateKey | lib/nichinoken.py:157-171 | every date a word yields is a valid date of the target year |
| DateRows.BareDayKey | lib/nichinoken.py:158-171 | a bare day number d gives the date (year, month, d) when that date exists and nothing otherwise |
| DateRows.SlashDateKey | lib/nichinoken.py:160-171 | a text m/d, optionally before a final newline, gives the date (year, m, d) when it exists and nothing otherwise, whatever the target month |
| DateRows.LongMonthSkips | lib/nichinoken.py:158-165 | with a month text of three or more digits a bare day number never gives a date |
| DateRows.Lookup | lib/nichinoken.py:173-174 | the dictionary lookup is absent exactly when no row has that date |
| DateRows.FirstSeen | lib/nichinoken.py:173-174 | the table has unique dates, and every row comes from an offer with that date and cy |
| DateRows.FirstSeenKeys | lib/nichinoken.py:173-174 | a date is in the table exactly when some word offered it |
| DateRows.FirstSeenWins | lib/nichinoken.py:173-174 | the cy stored for a date is that of the first word that offered it |
| DateRows.DateTable | lib/nichinoken.py:150-176 | the table's dates are unique, valid and in the target year |
| DateRows.ExtractDateRows | lib/nichinoken.py:145-176 | the loop builds exactly DateTable of the words |
| DateRows.InsertRow | lib/nichinoken.py:65 | inserting a new date into an ascending table keeps it ascending and adds exactly that row |
| DateRows.SortRows | lib/nichinoken.py:65 | the sorted table is ascending by date and a permutation of the rows |
| DateRows.SortRowsSorted | lib/nichinoken.py:69 | sorting an ascending table changes nothing |
| DateRows.SortRowsLookup | lib/nichinoken.py:65 | sorting keeps the y-centre of every date |
| DateRows.LookupMember | lib/nichinoken.py:65 | in a table with unique dates, each row is what a lookup of its date returns |
| Calendar.DaysInMonth | lib/nichinoken.py:169 | every month has 28 to 31 days |
| Calendar.OrdinalOrder | lib/nichinoken.py:190 | comparing dates is comparing their day ordinals |
| Calendar.OrdinalInjective | lib/nichinoken.py:190 | distinct valid dates have distinct ordinals |
| Calendar.OrdinalRange | lib/nichinoken.py:193 | ordinals run from 1 to the ordinal of 9999-12-31, reached by that date only |
| Calendar.NextDay | lib/nichinoken.py:193 | the next day is valid and one ordinal later |
| Calendar.AddDays | lib/nichinoken.py:193 | date + timedelta(days=n) is valid and n ordinals later |
| Calendar.Weekday | main.py:32 | weekday() is in 0..6 |
| Calendar.WeekdayOfNextDay | main.py:32 | the weekday of the next day is the next weekday |
| Calendar.WeekdayPhase | main.py:32 | 0001-01-01, ordinal day 1, is a Monday (weekday 0), which fixes the name each date gets |
| Calendar.IsoFormatParses | main.py:30 | str(date) is `YYYY-MM-DD`: ten characters, dashes at 4 and 7, digit fields denoting year, month and day |
| Interpolation.TableOrdinals | lib/nichinoken.py:183-190 | the ordinals of a sorted table strictly increase |
| Interpolation.DayAt | lib/nichinoken.py:193 | the k-th day of the expanded range is valid and k days after the first recorded date |
| Interpolation.ExpandGaps | lib/nichinoken.py:179-199 | the loop produces exactly every day from the first to the last recorded date, with the recorded y-centre or a gap |
| Interpolation.InsertMissing | lib/nichinoken.py:191-195 | the inner loop adds the days strictly between two recorded dates, each with a gap |
| Interpolation.PrevKnown | lib/nichinoken.py:202 | the nearest known value before a position, with only gaps between |
| Interpolation.NextKnown | lib/nichinoken.py:202 | the nearest known value after a position, with only gaps between |
| Interpolation.LinearFill | lib/nichinoken.py:202 | interpolate() keeps the length and every known value |
| Interpolation.FillResolved | lib/nichinoken.py:202 | when the first value is known, interpolation leaves no gap |
| Interpolation.Interpolate | lib/nichinoken.py:178-204 | the method returns exactly Interpolated of the table |
| Interpolation.InterpolatedContiguous | lib/nichinoken.py:183-204 | the result covers each day from the first to the last recorded date once, consecutively; it is sorted, so the second sort changes nothing |
| Interpolation.InterpolatedKeepsRows | lib/nichinoken.py:197-204 | every recorded date keeps its recorded y-centre |
| Interpolation.InterpolatedGap | lib/nichinoken.py:190-202 | the i-th missing day after a recorded date gets y0 + (y1 - y0)·i/delta between its recorded neighbours |
| Interpolation.GapFill | lib/nichinoken.py:190-202 | linear interpolation of the expanded grid at a missing day is that line value |
| Interpolation.InterpolatedAt | lib/nichinoken.py:202-204 | the k-th row is the k-th day paired with the interpolated grid value |
| Interpolation.InterpolatedNoGaps | lib/nichinoken.py:191 | a table of consecutive days comes back unchanged |
| Interpolation.InterpolatedEmpty | lib/nichinoken.py:183-204 | the empty table stays empty |
| Interpolation.OffsetsGrow | lib/nichinoken.py:190-193 | the j-th recorded date lies at least j days after the first |
| GradeSchedule.GradeMarker | lib/nichinoken.py:209-213 | grades 1 and 2 look for `1・2年生`, grade n of 3..6 for `n年生` |
| GradeSchedule.FirstMarked | lib/nichinoken.py:208-214 | the first word whose text contains the marker, or none exactly when no word does |
| GradeSchedule.GradeColumn | lib/nichinoken.py:206-215 | -1 when no word contains the grade marker; otherwise the centre of the first word that does |
| GradeSchedule.GradeColumnX | lib/nichinoken.py:206-215 | the loop with its early return yields GradeColumn |
| GradeSchedule.Kept | lib/nichinoken.py:234-239 | every kept word is an event word (in the column band, narrow, no ignored phrase, a target keyword) taken from the words |
| GradeSchedule.KeptConcat | lib/nichinoken.py:234-239 | keeping distributes over concatenation: words are kept in order |
| GradeSchedule.KeptWord | lib/nichinoken.py:234-239 | one word is kept, once, exactly when it is an event word; with KeptConcat each event word is kept as often as it occurs |
| GradeSchedule.KeptComplete | lib/nichinoken.py:234-239 | every event word is kept |
| GradeSchedule.ArgMin | lib/nichinoken.py:218 | a row nearest to cy, and the first such row |
| GradeSchedule.SearchDate | lib/nichinoken.py:217-219 | fails exactly on the empty table (argmin of nothing), with the argmin error; otherwise the date of a row nearest to cy, and of the first such row on ties |
| GradeSchedule.EventName | lib/nichinoken.py:241 | the name is the text with every newline turned into a space and nothing else changed, so it holds no newline |
| GradeSchedule.Events | lib/nichinoken.py:240-242 | one event per word |
| GradeSchedule.EventOfSpec | lib/nichinoken.py:240-241 | the event of a word is dated by the first row nearest to it and named by the word's text with newlines turned into spaces |
| GradeSchedule.ExtractSchedule | lib/nichinoken.py:221-244 | the loop returns exactly Schedule of the words and the table |
| GradeSchedule.ScheduleErrors | lib/nichinoken.py:218-240 | fails exactly when the table is empty and some word is an event word, and then with the argmin error |
| GradeSchedule.ScheduleEvents | lib/nichinoken.py:229-244 | otherwise one event per kept word, in order, each in the column, free of ignored phrases, with a target keyword, dated by its first nearest row and named by its text with newlines turned into spaces |
| GradeSchedule.ShareKeywords | lib/nichinoken.py:229-232 | grades 1 and 2 get the same schedule from the same inputs, and so do grades 3 to 6 |
| Pipeline.TargetYear | lib/nichinoken.py:47-51 | the file name's year (2000 to 2099) when the name matches, otherwise the current year |
| Pipeline.TargetMonth | lib/nichinoken.py:47-56 | the file name's month, as digits denoting it, when the name matches; otherwise the first month marker among the words; no month exactly when neither gives one |
| Pipeline.TargetFromFileName | lib/nichinoken.py:47-56 | a name ending in YYMM, one character and json gives year 20YY and month MM whatever the words |
| Pipeline.FilledTable | lib/nichinoken.py:58-69 | the sorted and filled table is sorted with unique valid dates of the target year, and is empty exactly when no date row was read |
| Pipeline.FilledEmpty | lib/nichinoken.py:68 | gap filling yields an empty table only from an empty one |
| Pipeline.FilledYear | lib/nichinoken.py:68 | gap filling stays in the year of the recorded dates |
| Pipeline.GetScheduleList | lib/nichinoken.py:47-86 | the method returns exactly ScheduleList of the response, the file name, the current year and the grade |
| Pipeline.ScheduleListErrors | lib/nichinoken.py:47-86 | the only errors are a malformed response, an unknown month, a missing grade heading and argmin of an empty table, each exactly in its own circumstances |
| Pipeline.ScheduleListEvents | lib/nichinoken.py:80-86 | every event returned has a valid date in the target year and a one-line name |
| Messages.LabelParts | main.py:32-33 | a label is `YYYY-MM-DD（曜） name` with the date's fields, the weekday's kanji and the event name |
| Messages.DateDigitsParts | main.py:30 | str(date) without dashes is the eight digits YYYYMMDD of the date |
| Messages.UrlParts | main.py:29-31 | the URL is the base URL, `&text=`, the quoted name, and the date digits twice as start and end |
| Messages.LinksAt | main.py:28-34 | one label and one URL per event, the k-th of each built from the k-th event |
| Messages.BuildUrls | main.py:23-36 | the loop builds exactly the label list and the URL list of the events |
| Messages.Items | main.py:40 | zip stops at the shorter list |
| Messages.SectionCount | main.py:42-45 | errors exactly for a non-positive count or no items (division by zero for 0); otherwise the least c with n <= c·k, between 1 and n |
| Messages.SectionLength | main.py:45 | the i-th section has the array_split size: one more item for the first n mod m sections |
| Messages.SectionEnds | main.py:45 | sections stay within the items and the last one ends at the last item |
| Messages.BuildMessages | main.py:39-48 | the loop builds exactly MessageList of the labels and URLs |
| Messages.SectionsCover | main.py:45-47 | the sections, in order, are exactly the items: nothing lost, repeated or reordered |
| Messages.MessagesJoinSections | main.py:45-47 | there is one message per section, each the section's items joined by newlines |
| Messages.MessageSizes | main.py:42-47 | every message holds 1 to k items, and earlier messages hold the same number or one more than later ones |
| Messages.NotificationMessages | main.py:20 | with three events per message: no events raise the array_split error; otherwise there are ceil(n / 3) messages, each joining one to three consecutive items |

## Left out

- Reading the JSON file, the `debug` prints and their output, and reading the clock are left
  out. The current year is the `todayYear` parameter of `Pipeline.ScheduleList` and
  `Pipeline.GetScheduleList`.
- `Nichinoken.__init__`'s assertion that the grade is 1 to 6 is the `1 <= schoolYear <= 6`
  precondition of the grade functions.
- Coordinates are exact reals, not IEEE doubles. Rounding in the centre, the median and the
  interpolation is not modelled.
- `np.median` of no values is NaN. It is modelled as `None`, which fails every comparison, as
  NaN does.
- `__read_response` is modelled with `pageNo` fixed at 0, the only value `get_schedule_list` passes.
- `int(...)` of the JSON's index strings, and `float(...)` of the coordinates, are not modelled.
  The response's fields are already numbers here.
- Words.ReadResponse: a response missing a key other than `startIndex` (no `text` or `pages`,
  a block without `layout`, a segment without `endIndex`, a vertex without `x` or `y`) is not
  representable; the Python code raises `KeyError` there.
- `\d` stands for the ASCII digits only. Python also accepts other Unicode decimal digits.
- `urllib.parse.quote` is a function parameter of `Messages.Url`. Its percent-encoding is not
  modelled.
- Interpolation.Interpolate requires its table sorted by date with unique dates, which is the
  dictionary `get_schedule_list` passes (it is always sorted first).
- Interpolation.LinearFill: pandas fills trailing gaps with the last known value. That case
  never occurs on the expanded table, whose last entry is always a recorded date, so the model
  does not state it.
- Messages.BuildUrls requires every event date to be valid, which a Python `datetime.date`
  always is.
- `lib/ocr.py`, `lib/line_notify.py` and `main.main` are not part of this model: the OCR call,
  LINE messaging and the command line.
- `main.main` calls `build_messages` even when no event was found. The model gives the error
  `build_messages` raises in that case (`NoSections`). It does not model the program exit that
  follows.

# To-do list core, modelled in Dafny

The repository is a single-page to-do list driven by one browser script,
`js/script.js`. This project models what is left of that script once the
document and the timers are taken away:

- the **task store**: the ordered `tasks` list and the `currentFilter` key. Its
  handlers are add, mark done, delete, delete all (behind a confirmation) and
  set filter. The store is the class `Store.TaskStore`, with one method per
  handler.
- the **helpers**: `trim` applied to the task text, `escapeHtml` (five
  `replaceAll` calls), `formatDisplayDate` and `isOverdue`.
- the **view computation** of `renderTasks`: the filter by key, the placeholder
  row for an empty view, and one row view-model per shown task. It is the pure
  function `View.ComputeView`. `Store.TaskStore.Render` is the row loop, proved
  equal to it.

Modules follow the pieces of the script:

| file | module | contents |
|---|---|---|
| options.dfy | Options | `Option` |
| seqs.dfy | Seqs | `Filter` and `Map` (the meaning of `Array.prototype.filter` and `map`), subsequence |
| text.dfy | Text | trim, `replaceAll`, `escapeHtml`, entity table, decoder |
| dates.dfy | Dates | calendar dates, ISO parsing, display format, day ordinals |
| tasks.dfy | Tasks | `Task`, `isOverdue`, mark-done by id, delete by id |
| view.dfy | View | filter callback, row view-model, `ComputeView` |
| store.dfy | Store | `TaskStore` class and the notifications its handlers emit |
| scenarios.dfy | Scenarios | the overdue and `<script>` scenarios |

What is passed in instead of computed:
- the new task's id, which the script builds from `Date.now()` and `Math.random()`;
- the answer to `confirm('Delete all tasks?')`;
- today's calendar date, which the script takes from `new Date()`;
- the values of the text and date input fields.

The notification a handler would show through `showAlert` is returned as an
`Alert` value. The model keeps the script's literal texts. Mark-done emits
"Task berhasil dihapus!" ("task deleted") with type `danger`, exactly like
delete. Delete-all emits nothing.

Three points of the script's behaviour that the model keeps as written:
- The done handler marks every task with the id Done, whatever its status.
  The done button exists only on Pending rows.
- Nothing in the script makes ids unique, so no uniqueness is assumed. Delete
  removes every task with the id. The list shrinks by exactly one only when one
  task has that id (`Tasks.RemoveByIdUnique`).
- `setFilter` stores any key it is given, and an unknown key shows every task.

## Model

| member | source | states |
|---|---|---|
| `Seqs.Filter` | js/script.js:38-44 | every kept element satisfies the callback, and the result is no longer than the input |
| `Seqs.FilterIsSubsequence` | js/script.js:38-44 | a filter result is a subsequence of the input, in input order |
| `Seqs.FilterMultiset` | js/script.js:38-44 | a filter keeps every copy of an element that passes and no copy of one that fails |
| `Seqs.FilterMembers` | js/script.js:82 | an element is in the result iff it is in the input and passes the callback |
| `Seqs.FilterKeepsAll` | js/script.js:43 | when every element passes, the result is the input |
| `Seqs.FilterEmptyIff` | js/script.js:46 | the result is empty iff no element passes |
| `Seqs.FilterNarrow` | js/script.js:40-42 | filtering by a stronger callback after a weaker one equals filtering by the stronger one alone |
| `Seqs.FilterSplit` | js/script.js:40-41 | filters by two complementary callbacks have lengths that add up to the input's length |
| `Seqs.Map` | js/script.js:72 | the result has exactly as many elements as the input; `Seqs.MapAt` gives each element |
| `Seqs.MapAt` | js/script.js:72 | a map keeps the length, and element i of the result is the callback applied to element i |
| `Seqs.MapAppend` | js/script.js:53 | mapping a concatenation concatenates the mapped parts |
| `Seqs.MapExtend` | js/script.js:53-88 | mapping a prefix one longer appends the new element's image |
| `Text.Trim` | js/script.js:103 | the trimmed text is never longer than the input and neither starts nor ends with whitespace; `Text.TrimShape` places it in the input |
| `Text.TrimStartShape` | js/script.js:103 | trimming the start removes a whitespace-only prefix and stops at a non-whitespace character |
| `Text.TrimEndShape` | js/script.js:103 | trimming the end removes a whitespace-only suffix and stops at a non-whitespace character |
| `Text.TrimShape` | js/script.js:103 | the trimmed text is a middle slice of the input with only whitespace cut away, and it neither starts nor ends with whitespace |
| `Text.TrimEmptyIff` | js/script.js:103-105 | text trims to empty iff every character is whitespace |
| `Text.TrimIdempotent` | js/script.js:103 | trimming trimmed text changes nothing |
| `Text.ReplaceAll` | js/script.js:94-98 | a non-empty replacement never shortens the text; `Text.ReplaceAllAppend` and `Text.ReplaceAllSingle` give the result character by character |
| `Text.ReplaceAllAppend` | js/script.js:94-98 | `replaceAll` on a concatenation is the concatenation of the two replacements |
| `Text.ReplaceAllSingle` | js/script.js:94-98 | `replaceAll` on one character yields the replacement iff the character is the pattern |
| `Text.ReplaceAllAbsent` | js/script.js:94-98 | `replaceAll` on text without the pattern returns it unchanged |
| `Text.EscapeHtml` | js/script.js:92-99 | escaping never shortens the text; `Text.EscapeHtmlIsEachChar`, `Text.EscapeHtmlNoMarkup` and `Text.UnescapeEscapeHtml` state what it computes |
| `Text.EscapeHtmlAppend` | js/script.js:92-99 | escaping a concatenation concatenates the escaped parts |
| `Text.EscapeHtmlChar` | js/script.js:92-99 | because `&` is replaced first, one character escapes to exactly its entity and no entity is escaped again |
| `Text.EscapeHtmlAmp` | js/script.js:94-98 | `&` escapes to `&amp;`, which the four later steps leave alone |
| `Text.AfterAmpKeep` | js/script.js:95-98 | the four steps after `&` leave text without `<`, `>`, `"`, `'` unchanged |
| `Text.LaterStepsKeep` | js/script.js:96-98 | the three steps after `<` leave text without `>`, `"`, `'` unchanged |
| `Text.LastStepsKeep` | js/script.js:97-98 | the two last steps leave text without `"`, `'` unchanged |
| `Text.EscapeHtmlIsEachChar` | js/script.js:92-99 | the five-step chain equals replacing each character by its entity in one pass |
| `Text.EscapeEachCharNoMarkup` | js/script.js:92-99 | the one-pass entity escaping contains no raw `<`, `>`, `"` or `'` |
| `Text.EscapeHtmlNoMarkup` | js/script.js:92-99 | escaped text contains no raw `<`, `>`, `"` or `'` |
| `Text.EachCharPlain` | js/script.js:92-99 | the one-pass escaping copies text without special characters unchanged |
| `Text.EscapeHtmlPlain` | js/script.js:92-99 | text without any of the five special characters is copied unchanged, in order |
| `Text.StartsWithAt` | js/script.js:92-99 | a text that starts with a prefix agrees with it at each position of the prefix |
| `Text.UnescapeEntity` | js/script.js:92-99 | an entity followed by more text decodes to its character followed by the decoded rest |
| `Text.NotAnEntity` | js/script.js:92-99 | text not starting with `&` is decoded by keeping its first character |
| `Text.UnescapeEachChar` | js/script.js:92-99 | decoding the one-pass escaping gives the original text back |
| `Text.UnescapeEscapeHtml` | js/script.js:92-99 | decoding the escaped text gives the original text back, so escaping loses nothing |
| `Dates.NatToDec` | js/script.js:21-22 | `String(n)` is a non-empty digit string that starts with `0` only for n = 0 |
| `Dates.NatToDecDigits` | js/script.js:19-21 | `String(n)` is a non-empty digit string that denotes n, has no leading zero, and is one digit long iff n < 10 |
| `Dates.Pad2` | js/script.js:19-20 | `padStart(2, '0')` yields at least two digits; `Dates.Pad2Digits` gives the exact result below 100 |
| `Dates.Pad2Digits` | js/script.js:19-20 | `padStart(2, '0')` of a number below 100 is exactly two digits denoting it |
| `Dates.DecValueBound` | js/script.js:17 | a k-digit string denotes a number below 10^k, so a parsed year is at most 9999 |
| `Dates.ParseIsoDate` | js/script.js:17-18 | a parsed due date is an existing calendar day with a year of at most four digits |
| `Dates.DigitsValue` | js/script.js:17 | a number below 10^k written with k zero-padded digits denotes itself |
| `Dates.DigitsOfValue` | js/script.js:17 | a digit string is the zero-padded numeral of its value |
| `Dates.ParseIsoText` | js/script.js:17-18 | the `yyyy-mm-dd` text of every existing day with a year of at most four digits parses to that day |
| `Dates.ParseIsoExact` | js/script.js:17-18 | a text that parses is exactly the `yyyy-mm-dd` text of the date it parses to |
| `Dates.ParseIsoDateIff` | js/script.js:17-18 | a text parses to a date iff the date exists, its year has at most four digits, and the text is its `yyyy-mm-dd` form |
| `Dates.FormatDisplayDate` | js/script.js:15-23 | the result is `-` iff the input is empty or not a valid date |
| `Dates.FormatDisplayDateFields` | js/script.js:19-22 | the display text is two digits denoting the month, `/`, two digits denoting the day, `/`, then the year as `String(year)` |
| `Dates.FormatDisplayDateRoundTrip` | js/script.js:15-23 | reading the display text back gives the parsed date, and `-` reads back as no date |
| `Dates.DateLess` | js/script.js:27-31 | day-granularity `due < today`: an earlier date is a different date in the same or an earlier year; `Dates.DateLessIff` ties it to the order of day numbers |
| `Dates.DaysBeforeMonthGrows` | js/script.js:27-31 | a month's days all come before the next month's days |
| `Dates.DaysBeforeYearGrows` | js/script.js:27-31 | a year's days all come before any later year's days |
| `Dates.DayWithinYear` | js/script.js:27-31 | a valid date's offset in its year is below the year's length |
| `Dates.DateLessOrdinal` | js/script.js:27-31 | an earlier calendar date has a smaller day number |
| `Dates.DateLessIff` | js/script.js:27-31 | the calendar order of two valid dates is exactly the order of their day numbers, which is what the comparison of two midnights compares |
| `Tasks.IsOverdue` | js/script.js:25-32 | only a Pending task with a non-empty due date that parses can be overdue |
| `Tasks.IsOverdueIff` | js/script.js:25-32 | overdue iff Pending and the due date parses to a day number below today's |
| `Tasks.MarkDoneById` | js/script.js:72 | the list keeps its length and every id, and a task is Done afterwards iff it carries the id or already was Done |
| `Tasks.MarkDoneByIdAt` | js/script.js:72 | length and order kept; a task with the id becomes Done with id, text and due date kept; every other task is unchanged |
| `Tasks.MarkDoneByIdIdempotent` | js/script.js:72 | marking the same id done twice equals marking it once |
| `Tasks.MarkDoneByIdAbsent` | js/script.js:72 | an id no task carries leaves the list unchanged |
| `Tasks.RemoveById` | js/script.js:82 | the list does not grow, and no remaining task carries the id; `Tasks.RemoveByIdSpec` gives the full result |
| `Tasks.RemoveByIdSpec` | js/script.js:82 | delete keeps a subsequence with no task carrying the id, keeps every other task with its multiplicity, and shrinks by the number of tasks with the id |
| `Tasks.RemoveByIdAbsent` | js/script.js:82 | deleting an id no task carries leaves the list unchanged |
| `Tasks.OneWithId` | js/script.js:82 | when exactly one task has the id, exactly one task matches it |
| `Tasks.RemoveByIdUnique` | js/script.js:82 | when exactly one task has the id, delete shrinks the list by exactly one |
| `View.Matches` | js/script.js:38-44 | `all` and any unknown key keep every task, and a task kept by `overdue` is Pending |
| `View.FilterView` | js/script.js:38-44 | the view is no longer than the list and holds only tasks that pass the callback; `View.FilterViewSpec` gives it for every key |
| `View.FilterViewSpec` | js/script.js:38-44 | the shown tasks are a subsequence of the list: all of it for `all` and unknown keys, and exactly the Pending, Done or overdue tasks, with multiplicity, for the other keys |
| `View.OverdueWithinPending` | js/script.js:40-42 | the overdue view is the overdue part of the pending view |
| `View.PendingDoneSplit` | js/script.js:40-41 | every copy of a task is counted exactly once between the pending and the done views, and their lengths add up to the list's |
| `View.RowOf` | js/script.js:57-65 | a row carries the task's id, its text escaped without raw markup and decoding back to it, and a due-date text that reads back to the parsed date |
| `View.RowOfSpec` | js/script.js:57-65 | a row escapes the text (no raw markup, decodes back), is struck through iff Done, shows the due date or `-`, shows the status word followed by nothing else or by exactly the ` (Overdue)` suffix, the latter iff overdue, a done control iff Pending, and always a delete control |
| `View.ComputeView` | js/script.js:38-88 | the table has one row per shown task, or the single placeholder row when none is shown, and its first row is the placeholder iff none is shown |
| `View.ComputeViewSpec` | js/script.js:46-53 | an empty filtered list renders as exactly one placeholder row with no controls; otherwise one row per shown task, in order |
| `View.ComputeViewEmptyIff` | js/script.js:38-50 | the view is the lone placeholder iff no task passes the filter |
| `Store.TaskStore.constructor` | js/script.js:11-12 | the store starts with no tasks and the filter `all` |
| `Store.TaskStore.AddTask` | js/script.js:102-114 | whitespace-only text changes nothing and emits nothing; otherwise exactly one Pending task with the trimmed text and the given due date is appended, earlier tasks unchanged, and the success notification is emitted; stored texts stay trimmed and non-empty |
| `Store.TaskStore.MarkDone` | js/script.js:71-75 | the list becomes the mark-done map of the old list, the filter is kept, and the "Task berhasil dihapus!" danger notification is emitted |
| `Store.TaskStore.Delete` | js/script.js:81-85 | the list becomes the delete filter of the old list, the filter is kept, and the danger notification is emitted |
| `Store.TaskStore.DeleteAll` | js/script.js:154-158 | a declined confirmation leaves the list unchanged, an accepted one empties it; no notification |
| `Store.TaskStore.SetFilter` | js/script.js:119-120 | the filter becomes the given key, whatever it is, and the tasks are unchanged |
| `Store.TaskStore.Render` | js/script.js:35-88 | the row loop returns exactly `ComputeView` of the current tasks, filter and today |
| `Scenarios.ParseExampleDate` | js/script.js:17 | `2020-01-01` parses to 1 January 2020 |
| `Scenarios.BuyMilkIsOverdue` | js/script.js:25-32 | a Pending task due 2020-01-01 is overdue on any later day |
| `Scenarios.OverdueStatusText` | js/script.js:65 | an overdue task shows the status `Pending (Overdue)` |
| `Scenarios.OverdueTaskShown` | js/script.js:38-44 | an overdue task is shown under `all`, `pending` and `overdue` but not under `done` |
| `Scenarios.ScriptTagEscaped` | js/script.js:92-99 | `<script>` is rendered as `&lt;script&gt;` |

## Left out

- Document access and construction are not modelled: element lookups,
  `innerHTML`, `createElement`, `appendChild`, event listeners, the filter
  dropdown's label and its active-class update, and the clearing of the input
  fields. The model stops at row view-models and the filter key. The label
  argument of `setFilter` affects only the dropdown text, so it is omitted.
- The re-render after each handler is not a separate step. The view is a
  function of the store's state, so `Render` after any handler gives the
  table that handler leaves.
- `showAlert` and its 3-second `setTimeout` removal are not modelled. Handlers
  return the message and type they would show instead.
- `confirm()` is a browser dialog. It becomes a boolean argument.
- Id generation from the clock and a random number is not modelled. The id is
  an argument, and no uniqueness is claimed.
- The script reads the clock anew in every `isOverdue` call: once per task in
  the overdue filter and once per status cell. The model fixes one `today` for a
  whole render, so a render that straddles midnight is not captured.
- JavaScript `Date` parsing and time zones are not modelled. The script
  reads an ISO date-only string as UTC midnight and then uses local-time
  getters and `setHours`. West of UTC, this shows and compares the previous
  day. The model reads the string as the calendar date it names.
- Date parsing accepts exactly `yyyy-mm-dd` naming an existing day.
  Other formats that an engine may accept, and engine-specific roll-over of
  out-of-range days such as `2021-02-30`, are treated as invalid dates.
  A date input field may also yield a year of more than four digits; the
  model treats such a date as invalid, so it is shown as `-` and is never
  overdue.
- The overdue test compares calendar dates, not millisecond time values.
  `Dates.DateLessIff` relates the two through day numbers.
- JavaScript strings are sequences of UTF-16 code units, while a Dafny
  `string` is a sequence of Unicode scalar values, so a lone surrogate cannot
  be represented. No modelled behaviour depends on this: every pattern, entity
  and whitespace character involved is a non-surrogate character of the Basic
  Multilingual Plane.
- The data attributes of the row buttons carry `task.id` unescaped. The model
  does not track them and records the id on the row.

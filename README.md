# Archery public calendar: row-to-event transformer and configuration check

This project models the logic of a small web calendar that publishes the
events kept in a Google Sheets spreadsheet. It has two parts.

- **src/calendar.js** turns one spreadsheet row into one event for the
  FullCalendar widget. A row is a map from column name to cell text. The
  cell helpers behind it are:
  - `truthy`, which reads a yes/no cell;
  - `parseMMDDYYYY` and `parseHHMM24`, the strict date and time parsers;
  - `makeLocalDate`, which builds the instant of a date and an optional time;
  - `isPastEvent`, which tells whether an event is over.

  `toFullCalendarEvent` ties them together. It resolves the column aliases,
  applies the defaults and sets `allDay`. It keeps an end only when it is
  strictly after the start. It builds the class list in a fixed order.
- **scripts/check-config.js** is a build-time check. It pulls the
  `const CSV_URL = "…";` declaration out of index.html and trims the
  address. The address must not be a placeholder, must be a Google Sheets
  address and must carry `output=csv`. A missing `gid=` or `single=true`
  only produces a warning.

The Dafny modules follow those files:

| module | file | contents |
|---|---|---|
| `Wrappers` | wrappers.dfy | `Option`, JavaScript's `??` |
| `JsText` | js_text.dfy | `trim` and the `\s` class, `toLowerCase`, `\d`/`\w`, `Number` on a digit run |
| `CalendarCells` | calendar_cells.dfy | reading a cell, `truthy`, the two parsers, `makeLocalDate` |
| `CalendarEvents` | calendar_events.dfy | the event record, `isPastEvent`, `toFullCalendarEvent` |
| `CheckConfig` | check_config.dfy | the extraction pattern, the address tests, the script's decision |

`toFullCalendarEvent` reassigns `end` and pushes onto `classNames`, so it is
the method `CalendarEvents.ToFullCalendarEvent`, with the same steps. Its
postcondition ties every field of the result to the specification functions
of the cell helpers. All other members are functions, because the source
computes them as expressions with early returns. The script's straight-line
run of early exits is the function `CheckConfig.Validate`, from page text to
an `Outcome`: `Fail(reason)`, or `Pass(url, warnings)`. `CheckConfig.ExitCode`
gives the process's exit status.

Time values are whole milliseconds since the epoch. The current time that
`isPastEvent` reads from the clock is the parameter `now`. The
`Date(y, m, d, h, min)` constructor is ECMAScript's MakeDay/MakeTime:

- a month outside 0..11 carries into the year;
- a day past the end of the month runs on into the next month;
- a year 0..99 means 1900..1999.

Local time is taken to be UTC.

The regular expressions are written out as scans: a pattern match becomes a
function that returns the captured groups, and a test becomes a search over
start positions. The extraction pattern `/const\s+CSV_URL\s*=\s*"([^"]*)"\s*;/`
is matched by `DeclarationAt`. It is proved to accept exactly the texts that
`IsDeclaration` describes, with the same captured group. The first match is
found by `FirstDeclarationFrom`, which is proved to return the leftmost one.

### What src/calendar.js does and does not do

- The title is read from the `"Title"` column only (src/calendar.js:68). No
  other title column is consulted.
- The only classes are `is-canceled` and `is-past` (src/calendar.js:95-96).
  There is no category class, no task, TBA or start-only classification and
  no time label.
- Beyond the `M/D/YYYY` shape, the date parser rejects only a zero month,
  day or year (src/calendar.js:26). `13/40/2024` is accepted as month 13, day 40
  (`CalendarCells.ParseDateNoUpperBound`).
- The check-mark comparison at src/calendar.js:12 is against the three
  characters U+00E2 U+0153 U+201C, the UTF-8 bytes of `✓` read as
  Windows-1252. That string, and its upper case, is truthy. A real `✓` is
  not (`CalendarCells.TruthyMojibakeMark`, `CalendarCells.TruthyRealCheckMark`).

## Model

| member | source | states |
|---|---|---|
| Wrappers.Coalesce | src/calendar.js:62-66 | `a ?? b` is `a` when it is present, otherwise `b` (its definition; it is used for the column aliases) |
| JsText.TrimStart | src/calendar.js:4 | removing leading white space leaves a suffix that is empty or starts with a non-space |
| JsText.TrimEnd | src/calendar.js:4 | removing trailing white space leaves a prefix that is empty or ends with a non-space |
| JsText.TrimStartDropsSpace | src/calendar.js:4 | everything removed from the front is white space |
| JsText.TrimEndDropsSpace | src/calendar.js:4 | everything removed from the back is white space |
| JsText.TrimOffset | src/calendar.js:4 | proof step: the number of characters `trim` removes from the front lies within the text |
| JsText.Trim | src/calendar.js:4 | `trim` yields a contiguous slice of its input that neither starts nor ends with white space |
| JsText.TrimDropsSpace | src/calendar.js:4 | `trim` removes only white space, on both sides |
| JsText.TrimStartPadded | src/calendar.js:4 | leading white space in front of a text that starts with a non-space is removed, and nothing else is |
| JsText.TrimEndPadded | src/calendar.js:4 | trailing white space after a text that ends with a non-space is removed, and nothing else is |
| JsText.TrimPadded | scripts/check-config.js:14 | trimming any white-space padding around a trimmed text gives back exactly that text |
| JsText.TrimOfTrimmed | src/calendar.js:19 | a text with no white space at either end is its own trim |
| JsText.TrimIdempotent | src/calendar.js:19 | trimming twice is trimming once |
| JsText.Lower | src/calendar.js:4 | the model of `toLowerCase` keeps the length and maps each character on its own (see "Left out" for how it differs from the full Unicode mapping) |
| JsText.LowerIdempotent | src/calendar.js:4 | lower-casing a lower-cased text changes nothing |
| JsText.LowerKeepsSpace | src/calendar.js:4 | a character is white space exactly when its lower case is |
| JsText.LowerConcat | src/calendar.js:4 | the model of `toLowerCase` distributes over concatenation (a proof step for `TrimLowerCommute`) |
| JsText.LowerAllSpace | src/calendar.js:4 | a run of white space stays a run of white space when lower-cased |
| JsText.LowerTrimmed | src/calendar.js:4 | a text without white space at its ends keeps that property when lower-cased |
| JsText.TrimLowerCommute | src/calendar.js:4 | trimming then lower-casing equals lower-casing then trimming |
| JsText.DigitsValue | src/calendar.js:23-25 | `Number` of one, two, three or four digits is at most 9, 99, 999 or 9999 |
| JsText.NatToString | src/calendar.js:35 | the decimal text of a number is a non-empty digit run, one digit below 10 and at most two below 100 |
| JsText.Pad2 | src/calendar.js:33 | a number below 100 written with two digits is exactly two `\d` characters |
| JsText.NatToStringValue | src/calendar.js:35 | `Number` of the decimal text of `n` is `n` |
| JsText.Pad2Value | src/calendar.js:36 | `Number` of the two-digit text of `n` is `n` |
| CalendarCells.Get | src/calendar.js:62 | `row[column]`: present exactly when the row has the column, with the row's text (its definition) |
| CalendarCells.Truthy | src/calendar.js:3-16 | `truthy`: the cell text (empty when absent), trimmed and lower-cased, is one of `true`, `yes`, `1`, `y`, `t`, `checked`, U+00E2 U+0153 U+201C, `on`; the lemmas below state its properties |
| CalendarCells.MissingIsNotTruthy | src/calendar.js:4 | `null`/`undefined` is not truthy |
| CalendarCells.TruthyIgnoresPadding | src/calendar.js:4 | white space around the cell text never changes the answer |
| CalendarCells.TruthyIgnoresCase | src/calendar.js:4 | a cell text and its lower case get the same answer |
| CalendarCells.TruthyOfTrimmed | src/calendar.js:3-16 | for a text without white space at its ends, truthy is membership of its lower case in the word set |
| CalendarCells.TruthyMojibakeMark | src/calendar.js:12 | the three characters U+00E2 U+0153 U+201C are truthy |
| CalendarCells.TruthyMojibakeMarkUpper | src/calendar.js:4-12 | so is their upper case U+00C2 U+0152 U+201C, through lower-casing |
| CalendarCells.TruthyRealCheckMark | src/calendar.js:12 | a real check mark U+2713 is not truthy |
| CalendarCells.TruthyRejectsNo | src/calendar.js:5-15 | a word outside the set, `no`, is not truthy |
| CalendarCells.MatchDate | src/calendar.js:21 | a date match yields 1-2 digits, 1-2 digits and 4 digits that, joined by `/`, spell the text |
| CalendarCells.MatchDateComplete | src/calendar.js:21 | every text of that shape matches, with exactly the groups it was built from |
| CalendarCells.ParseMMDDYYYY | src/calendar.js:18-28 | blank text gives nothing; a result has month and day in 1..99 and year in 1..9999 |
| CalendarCells.ParseDateSound | src/calendar.js:21-27 | every accepted text, trimmed, is `M/D/YYYY` and the result holds exactly those numbers |
| CalendarCells.ParseDateAccepts | src/calendar.js:18-28 | every padded `M/D/YYYY` with non-zero components parses to exactly its numbers |
| CalendarCells.ParseDateRejectsZero | src/calendar.js:18-28 | a well-shaped date with a zero month, day or year is rejected, however it is padded |
| CalendarCells.ParseDateNoUpperBound | src/calendar.js:26-27 | `13/40/2024` is accepted as month 13, day 40 of 2024 |
| CalendarCells.MatchTime | src/calendar.js:33 | a time match yields 1-2 digits and exactly 2 digits that, joined by `:`, spell the text |
| CalendarCells.MatchTimeComplete | src/calendar.js:33 | every text of that shape matches, with exactly its groups |
| CalendarCells.ParseHHMM24 | src/calendar.js:30-40 | a result has hour 0..23 and minute 0..59 |
| CalendarCells.ParseTimeSound | src/calendar.js:33-39 | every accepted text, trimmed, is `H:MM` or `HH:MM` with a two-digit minute, and the result holds those numbers |
| CalendarCells.ParseTimeAccepts | src/calendar.js:30-40 | a padded `H:MM`/`HH:MM` parses exactly when hour <= 23 and minute <= 59, to those numbers |
| CalendarCells.ParseTimeRoundTrip | src/calendar.js:30-40 | for every hour 0..23 and minute 0..59, `hh + ":" + pad2(min)` parses back to them |
| CalendarCells.MakeDayMonthCarry | src/calendar.js:43-45 | month index + 12 in the `Date` constructor is the same day one year later |
| CalendarCells.MakeDay | src/calendar.js:44-45 | ECMAScript MakeDay: the day number of year, month index and day, with the month index carried into the year; stated through `MakeDayMonthCarry` |
| CalendarCells.FullYear | src/calendar.js:44-45 | the `Date` constructor reads a year 0..99 as 1900..1999 and any other year as itself |
| CalendarCells.MakeLocalDate | src/calendar.js:42-46 | `makeLocalDate`: the date's day number in milliseconds, plus the clock time when there is one; stated through `MakeLocalDateParts` and `SameDateOrder` |
| CalendarCells.DayOf | src/calendar.js:44-45 | proof step: an instant built from a day number and a time of day splits back into them |
| CalendarCells.MakeLocalDateParts | src/calendar.js:42-46 | `makeLocalDate` lands on the date's day, at midnight without a time and at the clock time with one |
| CalendarCells.SameDateOrder | src/calendar.js:74-79 | on one date, instants compare as their minutes of the day do |
| CalendarEvents.EndOfDay | src/calendar.js:52-54 | 23:59:59.999 lies on the same day, at or after the instant, one millisecond before the next day |
| CalendarEvents.RefTime | src/calendar.js:51-57 | the instant `isPastEvent` judges by: the end when there is one, else the start |
| CalendarEvents.IsPastEvent | src/calendar.js:48-59 | an event that is past has its end (its start without an end) before `now` |
| CalendarEvents.AllDayPastIff | src/calendar.js:50-55 | an all-day event is past exactly when its day is before the day of `now` |
| CalendarEvents.PastIgnoresClasses | src/calendar.js:96 | whether an event is past does not depend on its classes, so it can be judged before they are pushed |
| CalendarEvents.PastStaysPast | src/calendar.js:48-59 | once an event is past it stays past as `now` advances |
| CalendarEvents.OrDefault | src/calendar.js:68-70 | `s \|\| fallback` is `s` unless `s` is empty (its definition) |
| CalendarEvents.DateField | src/calendar.js:62 | the date cell: `"Event Date"`, or `"Date"` only when `"Event Date"` is absent |
| CalendarEvents.StartField | src/calendar.js:65 | the start cell: `"Start Time"`, or `"Start"` only when `"Start Time"` is absent |
| CalendarEvents.EndField | src/calendar.js:66 | the end cell: `"End Time"`, or `"End"` only when `"End Time"` is absent |
| CalendarEvents.TitleOf | src/calendar.js:68 | the trimmed `"Title"` cell, `Event` when that is empty |
| CalendarEvents.LocationOf | src/calendar.js:69 | the trimmed `"Location"` cell, empty when absent |
| CalendarEvents.CategoryOf | src/calendar.js:70 | the trimmed `"Category"` cell, `Other` when that is empty |
| CalendarEvents.ClassNames | src/calendar.js:92-96 | `is-canceled` when canceled, then `is-past` when past, and nothing else |
| CalendarEvents.CanceledPush | src/calendar.js:95 | proof step for `ToFullCalendarEvent`: pushing `is-canceled` only when canceled gives the class list of a not-past event |
| CalendarEvents.PastPush | src/calendar.js:96 | proof step for `ToFullCalendarEvent`: pushing `is-past` after it gives `is-canceled` then `is-past`, each only when it applies |
| CalendarEvents.ToFullCalendarEvent | src/calendar.js:61-99 | no event exactly when the date does not parse (an empty "Event Date" does not fall back to "Date"); otherwise title, location, category and canceled come from their cells with their defaults; all-day exactly when the start time does not parse; start is the date at the start time or midnight; an end only when the end time parses and is strictly later, on the same date; classes `is-canceled`, `is-past` in that order |
| CheckConfig.SkipSpaces | scripts/check-config.js:7 | `\s*` stops at the end or at the first non-space |
| CheckConfig.SkippedAreSpaces | scripts/check-config.js:7 | all it passes over is white space |
| CheckConfig.NextQuote | scripts/check-config.js:7 | `[^"]*` stops at the first quote or the end, passing no quote |
| CheckConfig.DeclarationAt | scripts/check-config.js:7 | the group captured by a match is free of double quotes |
| CheckConfig.IsDeclaration | scripts/check-config.js:7 | the language of `/const\s+CSV_URL\s*=\s*"([^"]*)"\s*;/` at a position, with its captured group, stated without the scan |
| CheckConfig.DeclarationAtSound | scripts/check-config.js:7 | whatever the scan accepts at a position is a declaration there, capturing the scan's result |
| CheckConfig.DeclarationAtComplete | scripts/check-config.js:7 | every declaration at a position is accepted there, with its own quoted text |
| CheckConfig.DeclarationAtIff | scripts/check-config.js:7 | the scan at a position yields `url` exactly when a declaration capturing `url` begins there |
| CheckConfig.FirstDeclarationFrom | scripts/check-config.js:7 | the match found is the leftmost one: there is none before it, and none at all when nothing is found |
| CheckConfig.FindLeadingDeclaration | scripts/check-config.js:7 | a page that begins with such a declaration yields its quoted text |
| CheckConfig.FindCsvUrl | scripts/check-config.js:7-14 | `html.match(...)[1]`: the group of the leftmost match; stated through `FirstDeclarationFrom`, `FindCsvUrlSound` and `FindCsvUrlNone` |
| CheckConfig.FindCsvUrlSound | scripts/check-config.js:7-14 | an address found is captured by a declaration in the page, and no declaration begins before that one |
| CheckConfig.FindCsvUrlNone | scripts/check-config.js:7-12 | nothing is found exactly when the page holds no declaration anywhere |
| CheckConfig.NotFoundIff | scripts/check-config.js:9-12 | the script fails with "could not find CSV_URL" exactly when the page holds no declaration |
| CheckConfig.Placeholders | scripts/check-config.js:16-21 | the four placeholder values, the empty text among them |
| CheckConfig.LooksLikeGoogleSheets | scripts/check-config.js:29-31 | the address starts with `https://docs.google.com/spreadsheets/` or `http://docs.google.com/spreadsheets/` |
| CheckConfig.ParamFrom | scripts/check-config.js:38 | `[?&]lit\b` is found exactly when it occurs somewhere |
| CheckConfig.HasParam | scripts/check-config.js:38 | `/[?&]lit\b/.test(url)` holds exactly when `?lit` or `&lit` followed by a boundary occurs somewhere (used for `output=csv` at :38 and `single=true` at :46) |
| CheckConfig.HasParamWhenPresent | scripts/check-config.js:38 | `?output=csv` or `&output=csv` followed by the end or a non-word character is found |
| CheckConfig.ParamNeedsBoundary | scripts/check-config.js:38 | an occurrence followed by a word character does not count |
| CheckConfig.DigitsEnd | scripts/check-config.js:45 | `\d+` runs to the end of the digit run |
| CheckConfig.GidFrom | scripts/check-config.js:45 | `[?&]gid=\d+\b` is found exactly when it occurs somewhere |
| CheckConfig.GidAt | scripts/check-config.js:45 | `[?&]gid=`, one or more digits and a boundary at a position |
| CheckConfig.HasGid | scripts/check-config.js:45 | `/[?&]gid=\d+\b/.test(url)` holds exactly when such an occurrence exists |
| CheckConfig.Warnings | scripts/check-config.js:44-53 | a warning for a missing `gid`, one for a missing `single=true`, in that order, and no others |
| CheckConfig.Validate | scripts/check-config.js:9-56 | each failure reason occurs exactly when the checks before it pass and its own fails; a pass carries the trimmed address and its warnings |
| CheckConfig.ExitZeroIff | scripts/check-config.js:9-56 | the exit status is 0 exactly when the four mandatory checks pass, whatever the warnings |
| CheckConfig.ExitCode | scripts/check-config.js:11-56 | exit status 1 for every failure (:11, :25, :35, :41) and 0 for a pass (:56) |
| CheckConfig.PlaceholderTrimmed | scripts/check-config.js:16-21 | proof step for `PlaceholderRefused`: every placeholder has no white space at its ends |
| CheckConfig.PlaceholderRefused | scripts/check-config.js:14-26 | a placeholder between quotes, padded with any white space, fails as that placeholder |

## Left out

- Time zones and daylight saving: local time is taken to be UTC, so `makeLocalDate` and the 23:59:59.999 of `isPastEvent` are UTC instants.
- CalendarEvents.EndOfDay: takes the day of an instant by division. It does not model the round trip through `getFullYear`/`getMonth`/`getDate` and back through the `Date` constructor. The two agree for every instant `makeLocalDate` can produce, but that is not proved here.
- The range limit of JavaScript time values (±8.64e15 ms) is not modelled. Years 1..9999 with months and days below 100 stay far inside it.
- Cells are strings or absent. `null` and non-string cell values (numbers, booleans) are not modelled, and `String(v ?? "")` and `String(v || "")` then coincide.
- JsText.Lower: covers ASCII, Latin-1, U+0152 and the Kelvin sign, the characters whose lower case can occur in a yes-word. Other characters are left unchanged, which is all `truthy` can observe. The full Unicode mapping is not character by character: U+0130 lowers to two characters, and a final sigma depends on its neighbours. So the length and concatenation properties of `Lower` and `LowerConcat` hold of the model only.
- `Number.isNaN` (src/calendar.js:37) and the `< 0` tests (line 38) are not modelled. They cannot fire on a run of ASCII digits.
- The repeated `s === "true"` (src/calendar.js:14) adds nothing and is folded into the word set.
- General regular-expression semantics are not modelled. Each pattern is written out as a scan over the text. For the extraction pattern, `CheckConfig.DeclarationAtIff` proves that the scan accepts exactly the pattern's language, as stated by `CheckConfig.IsDeclaration`. For the query tests, `ParamAt` and `GidAt` spell out the pattern at one position, and `HasParam`/`HasGid` search every position.
- File reading (`fs.readFileSync`), console messages and `process.exit` in scripts/check-config.js: the decision is `Validate`'s `Outcome`, and the exit status is `ExitCode`.
- CalendarEvents.IsPastEvent: its own postcondition states only the direction "past implies before `now`". The all-day case is characterised in full by `AllDayPastIff`. The timed case is the single comparison the function consists of.
- eslint.config.js is lint configuration with no behaviour, and it is not part of this model. Neither are the CSV fetching and parsing or the calendar widget, which are not in the modelled files.

# Operation calendar: event bookkeeping, modelled in Dafny

The operation calendar is a year-at-a-glance web calendar. It is served by a
small Flask application. The application stores events in one SQL table and
seeds it with the 2025 and 2026 Saudi public and Islamic holidays. The browser
page shows twelve month grids. Each day cell is coloured by the day's preset
event (from the server's month data) and by the user's own event for that day.
Under each grid is a list of the month's events. A dialog writes one title and
type over a range of days, or deletes one day's user event.

This project models the bookkeeping of both sides and proves what each one
promises.

- `wrappers.dfy`, module `Wrappers`: `Option` (JavaScript's `undefined`, an
  absent dictionary key) and map lookup.
- `text.dfy`, module `Text`: the string operations the page builds and reads its
  date keys with. These are decimal printing, `padStart` with zeros, `split` and
  `parseInt`, with the round trip "pad, then parse, gives the number back".
- `dates.dfy`, module `Dates`: proleptic Gregorian dates as (year, month, day)
  triples, replacing JavaScript's `Date` and Python's `date`. It covers month
  lengths, the next day, day numbers (time order) against calendar order (how
  Python and SQL compare dates), the inclusive run of days between two dates,
  weekdays, and the two key formats. The grid's key has an unpadded year; the ISO
  key has a four-digit year. The module proves that splitting a formatted key
  gives back its numbers.
- `display.dfy`, module `Display`: what the page derives from its state without
  changing it.
  - The client's type tables.
  - One day cell: the preset is painted first and the user event second, so the
    user event's colour wins.
  - The title fallback.
  - The month's event list: presets collected, then user events, then a stable
    insertion sort by day. The list is proved sorted, preset-first on equal days,
    exactly the month's entries, and one entry per key of either map.
  - What the edit dialog is pre-filled with.
- `calendar.dfy`, module `Calendar`: the page's four module-level variables
  (`currentYear`, `selectedDate`, `yearCalendarData`, `userEvents`) as the class
  `Page`. Its methods load a year's months and the user's events, open and close
  the dialog, save a range and delete. Network calls are inputs. Each call
  either succeeds, with the `id` field of its response, or fails.
  `SaveEvent` is proved to:
  - issue exactly one call per day of the range, an update exactly when
    `userEvents` already holds that day;
  - leave `userEvents` as the success callbacks make it, even when another call
    failed;
  - close the dialog only when every call succeeded.
- `server.dfy`, module `Server`: `app.py` with the table as a sequence of rows
  and the handlers as methods of `Backend`. The handlers call
  `init_database`, which is guarded by the `_db_initialized` flag. The module
  covers:
  - year/month validation and the available years;
  - the half-open month window with the December rollover;
  - grouping rows by ISO date: a loop proved equal to a reference definition,
    with every row appearing exactly once, under its own date;
  - `strptime` of `%Y-%m-%d`, proved to read back what `isoformat` writes;
  - the POST checks and defaults;
  - the PUT partial update;
  - DELETE;
  - preset seeding, proved idempotent.

The month list keeps both the preset entry and the user entry of a date, so it
is non-decreasing by day and a date can appear twice (`Display.IsMonthList`).

## Model

| member | source | states |
|---|---|---|
| Text.PadStart | static/js/script.js:189 | `padStart(width, '0')` has length `max(len, width)` and keeps a digit string all digits |
| Text.PadStartShape | static/js/script.js:189 | the padded text ends with the original text and is zeros before it |
| Text.ParseInt | static/js/script.js:255-259 | `parseInt` is NaN exactly when the text is empty or does not start with a digit |
| Text.Split | static/js/script.js:255-259 | `split` always yields at least one part |
| Text.SplitAtSeparator | static/js/script.js:255-259 | splitting `a + '-' + b`, with no '-' in `a`, gives `a` followed by the parts of `b` |
| Text.NatToStringRoundTrip | static/js/script.js:189 | reading back the decimal digits of a number gives the number |
| Text.PaddedRoundTrip | static/js/script.js:189 | `parseInt(String(n).padStart(w, '0'))` is `n` for every width |
| Dates.DaysInMonth | static/js/script.js:174 | a month has 28 to 31 days, and February has 29 exactly in leap years |
| Dates.NextDay | static/js/script.js:483 | `setDate(getDate() + 1)` gives a real day exactly one day later in time |
| Dates.FirstWeekday | static/js/script.js:173 | the number of blank cells is the weekday of the 1st of the month, between 0 and 6 |
| Dates.WeekdayAnchor | static/js/script.js:173 | `getDay()` of 0001-01-01 is 1 (Monday); with `Dates.WeekdayNext` this fixes every day's weekday |
| Dates.WeekdayNext | static/js/script.js:173 | the weekday of the next day is the following weekday, modulo 7 |
| Dates.OrdinalOrder | static/js/script.js:437 | calendar (tuple) order of real days is time order, and equal day numbers mean the same day |
| Dates.RangeDays | static/js/script.js:443-484 | the walk from start to end holds `end - start + 1` real days, the i-th being `i` days after start, and none when start is later than end |
| Dates.RangeDaysExactly | static/js/script.js:446 | a day is in the walk exactly when it lies between start and end inclusive; the walk begins at start and ends at end |
| Dates.RangeDaysDistinct | static/js/script.js:443-484 | the walk never visits a day twice |
| Dates.DateTextRoundTrip | static/js/script.js:255-259 | splitting a `year-mm-dd` key on '-' and `parseInt`-ing the parts gives back year, month and day |
| Dates.IsoKeyInjective | static/js/script.js:447 | two different days never share an ISO key |
| Dates.GridKeyIsIsoKey | static/js/script.js:189 | from year 1000 on, a grid cell's key equals the ISO key its day is saved under |
| Display.TablesAgree | static/js/script.js:8-27 | every type has a display name exactly when it has a colour |
| Display.DisplayTitle | static/js/script.js:263 | a non-empty title is shown as is; an empty one falls back to the type's name, or undefined for an unknown type |
| Display.DayCell | static/js/script.js:192-203 | painting (`Display.Paint`) the preset first and the user event second: a user event of a known type gives its type's colour over any preset; a user event of a type with no colour leaves the preset's colour, or none; with only a preset the cell takes the preset type's colour; the classes are exactly `has-event` and the events' types; with neither event the cell is unstyled |
| Display.Entry | static/js/script.js:260-283 | a list entry keeps its key, type and preset flag, shows `title || EVENT_TYPE_NAMES[type]`, and its day is `parseInt` of the key's third part |
| Display.IsoKeyListed | static/js/script.js:271-283 | a user event stored under a day's ISO key is listed in that day's month and year, on that day |
| Display.InsertByDay | static/js/script.js:288 | inserting before the first entry whose day is not below the new one's keeps the list sorted and adds exactly that entry |
| Display.SortByDay | static/js/script.js:288 | the stable sort by day yields a sorted permutation of its input |
| Display.InsertKeepsPresetFirst | static/js/script.js:288 | stable insertion keeps presets ahead of user entries on the same day |
| Display.SortKeepsPresetFirst | static/js/script.js:250-288 | because presets are pushed first and the sort is stable, a preset entry precedes a user entry of the same day |
| Display.CollectPresets | static/js/script.js:254-268 | the first `forEach` collects one entry, flagged as preset, for exactly the preset keys of the month and year |
| Display.CollectUsers | static/js/script.js:271-285 | the second `forEach` collects one entry, flagged as user, for exactly the user keys of the month and year |
| Display.MonthEventList | static/js/script.js:250-288 | the month list is sorted by day, has presets first on ties, and holds exactly the month's preset and user entries, as many as preset matches plus user matches, with no de-duplication |
| Display.PresetOn | static/js/script.js:392-394 | a preset is found for a key exactly when the month named by `parseInt` of its second part is loaded and stores that key, and it is the one stored there |
| Display.Prefill | static/js/script.js:379-410 | the dialog on a key has both range ends set to the key; title and type come from the user event if any, else from the preset, else stay empty; delete is offered exactly when a user event exists and no preset does |
| Calendar.PlannedCall | static/js/script.js:455-481 | the call for a day's ISO key goes to that key with the submitted title and type; it is an update, carrying the stored id (possibly absent), exactly when `userEvents` has the key, and a create otherwise |
| Calendar.DayKeys | static/js/script.js:446-455 | one ISO key per day of the run, in order |
| Calendar.PlanCalls | static/js/script.js:443-484 | one call per day key, in order |
| Calendar.Written | static/js/script.js:460-479 | a succeeded write stores the submitted title, type and the type's colour; the create path records the response's id and the update path stores none |
| Calendar.SettleEffect | static/js/script.js:456-480 | for the success callbacks applied in call order (`Calendar.Settle`, script.js:460-479), with one call per date, a date whose call succeeded holds what that call wrote, and every other key keeps its value or stays absent, whatever order the callbacks run in |
| Calendar.DayKeysDistinct | static/js/script.js:446-483 | the days of a range have distinct ISO keys, so a save never writes the same date twice |
| Calendar.KeyOfDay | static/js/script.js:446-455 | a day of the range finds its key at its offset from the start |
| Calendar.DayOfKey | static/js/script.js:446-455 | a key of the range names the day at that offset, which lies in the range |
| Calendar.WrittenKey | static/js/script.js:456-480 | over distinct keys, a key whose call succeeded holds the submitted title, type and colour, with the response id only when created |
| Calendar.KeptKey | static/js/script.js:456-480 | over distinct keys, a key with no call or only failed calls keeps its event or stays absent |
| Calendar.SavedDay | static/js/script.js:456-480 | a day of the range whose call succeeded holds what the save wrote |
| Calendar.KeptDay | static/js/script.js:456-480 | a day outside the range, or whose call failed, keeps what it had |
| Calendar.SaveEffect | static/js/script.js:456-480 | after a save, a day of the range whose call succeeded holds the submitted title, type and colour, with the response id only when created; a day outside the range, or whose call failed, is unchanged |
| Calendar.IssueCalls | static/js/script.js:443-484 | the `while` loop issues exactly the planned call for each day from start to end inclusive, deciding update or create on `userEvents` as it was before any callback |
| Calendar.LoadedEvents | static/js/script.js:99-106 | the rebuilt map has a key exactly for each date in the rows, and no entry has an id |
| Calendar.LoadedEventsLastWins | static/js/script.js:100-106 | when several rows share a date, the last one's title, type and colour are kept |
| Calendar.MonthOrEmpty | static/js/script.js:80-84 | a failed month fetch is stored as a month with no events; a successful one is stored as received |
| Calendar.UserEventPaintsCell | static/js/script.js:189-203 | from year 1000 on, a day holding a user event of a known type is painted in that type's colour in the grid, whatever preset shares the day |
| Calendar.Page.constructor | static/js/script.js:1-5 | the page starts on the clock's year with nothing selected, no month data and no user events |
| Calendar.Page.MonthGrid | static/js/script.js:170-203 | the grid of a month starts with as many blanks as the weekday of its 1st (fewer than 7) and has one cell per day of the month, each styled from the month's presets and `userEvents` under the grid key |
| Calendar.Page.LoadYearCalendarData | static/js/script.js:74-93 | each of the 12 months gets its response, or no events when that fetch failed; other keys and the rest of the state are untouched |
| Calendar.Page.ChangeYear | static/js/script.js:337-340 | switching year sets `currentYear`, then reloads every month from the new responses, and leaves every other key of the month map as it was |
| Calendar.Page.LoadUserEvents | static/js/script.js:96-114 | `userEvents` is replaced wholesale by the map built from the rows, or emptied when the fetch fails; nothing else changes |
| Calendar.Page.UpdateEventsListForMonth | static/js/script.js:240-288 | nothing is listed while the month has no data; otherwise the list is the month list over `currentYear` |
| Calendar.Page.OpenEventModal | static/js/script.js:379-412 | opening on a key selects it and returns the pre-filled form, changing nothing else |
| Calendar.Page.CloseEventModal | static/js/script.js:415-419 | closing clears `selectedDate` and changes nothing else |
| Calendar.Page.SettleWrites | static/js/script.js:456-495 | the callbacks apply each succeeded write in call order, and report whether all calls succeeded |
| Calendar.Page.SaveEvent | static/js/script.js:422-496 | a missing date or a start later than the end makes no call and changes nothing; otherwise there is one call per day in range, `userEvents` is what the succeeded calls wrote, and the dialog closes only when every call succeeded |
| Calendar.Page.DeleteEvent | static/js/script.js:499-515 | nothing happens unless the selected date has a user event; the delete carries its stored id; on success exactly that key is removed and the dialog closes; on failure nothing changes |
| Server.PresetTableFacts | app.py:38-62 | every preset has a real date, a type in the colour table with that type's colour, and no two presets share a date |
| Server.AvailableYears | app.py:235-238 | the year list holds 11 years, 2025 upwards one by one |
| Server.AvailableYearsAccepted | app.py:237 | the listed years, in ascending order, are exactly those the calendar endpoint accepts |
| Server.MonthWindow | app.py:110-114 | the window runs from the 1st of the month to the day after its last day, which is January 1 of the next year for December |
| Server.WindowIsMonth | app.py:110-119 | a real day is inside `[start, end)` exactly when it lies in that year and month, and exactly when its day number lies between the window ends |
| Server.MonthRows | app.py:116-119 | the query returns exactly the rows whose date lies in the window |
| Server.MonthRowsCount | app.py:116-119 | the query returns each row of the window as often as the table holds it, and no other row |
| Server.MonthRowsWellFormed | app.py:116-119 | the rows of a month of a well-formed table keep positive, distinct ids and storable dates |
| Server.MonthGroupedExactlyOnce | app.py:116-127 | every row of the month appears exactly once in the month's reply, in the list under its own ISO date |
| Server.DayField | app.py:166 | a `%d` field denotes a day from 1 to 31 |
| Server.ParseIsoDate | app.py:166 | whatever `strptime` accepts is a real day in years 1 to 9999 |
| Server.IsoDateRoundTrip | app.py:31 | `strptime` of `isoformat` gives back the same day |
| Server.DictsOn | app.py:122-127 | a date's list holds only dictionaries of that date from the query, and is empty for a date no row has |
| Server.GroupedStep | app.py:123-127 | one more row appends its dictionary to its date's list, creating the list for a new date, and leaves the other dates' lists alone |
| Server.DictsOnCount | app.py:122-127 | a dictionary occurs in its own date's list as often as in the query result, and in no other list |
| Server.DistinctIdsOnce | app.py:122-127 | in a list with distinct ids, each dictionary occurs exactly once |
| Server.DictOnce | app.py:122-127 | with distinct ids, each row is serialized exactly once |
| Server.GroupedExactlyOnce | app.py:147-153 | every row, serialized by `Server.ToDict` (app.py:27-35), appears exactly once in the grouped result, in the list under its own ISO date |
| Server.GroupByDate | app.py:147-153 | the grouping loop builds the map from each ISO date to all of that date's rows in query order |
| Server.Admit | app.py:163-174 | POST is refused (400) when title or date is missing or empty, fails (500) when `strptime` rejects the date, and otherwise takes type `custom`, colour `#5B9BD5` and description `""` for omitted fields |
| Server.AdmitIsoBody | app.py:163-174 | a body with a non-empty title, an ISO date and a type is admitted with that day, the default colour and an empty description |
| Server.Patched | app.py:197-206 | PUT changes exactly the fields present in the body and keeps the id; a date `strptime` rejects makes it fail |
| Server.PatchedIdempotent | app.py:197-206 | repeating a PUT changes nothing more, and an empty body changes nothing |
| Server.MaxId | app.py:17 | the table's largest id: no row's id exceeds it, and some row has it unless it is 0 for an empty table |
| Server.NextId | app.py:17 | an inserted row's id is positive and larger than every id in the table |
| Server.IndexOfId | app.py:194 | a row is found exactly when some row has the id, and it is such a row |
| Server.SeedOne | app.py:79-88 | after a seeding step the preset's date and title are in the table; the table only grows, by one row exactly when no row had that date and title, and that row has the next id, the preset's title, date, type and colour and an empty description |
| Server.SeedAllCovers | app.py:77-89 | seeding only appends, and afterwards every preset has a row with its date and title |
| Server.SeedAllNoop | app.py:77-89 | a table that already holds every preset is left as it is |
| Server.SeedAllIdempotent | app.py:67-91 | seeding twice gives the same table as seeding once |
| Server.SeedAllFresh | app.py:77-89 | presets with distinct dates, none yet in the table, are all appended in order |
| Server.SeedEmptyTable | app.py:38-53 | an empty table receives all fourteen presets |
| Server.SeedOneWellFormed | app.py:80-88 | one seeding step keeps ids positive and distinct and dates storable |
| Server.SeedAllWellFormed | app.py:77-90 | seeding keeps ids positive and distinct and dates storable |
| Server.RemoveAt | app.py:222-223 | removing a row removes exactly the rows with its id and keeps the table well formed |
| Server.Initialized | app.py:67-91 | the table a handler works on after `init_database` is well formed when the table was |
| Server.Backend.constructor | app.py:64-65 | a process starts on an existing table with the flag cleared |
| Server.Backend.InitDatabase | app.py:67-91 | the first call seeds the missing presets and sets the flag; later calls change nothing |
| Server.Backend.GetCalendarData | app.py:98-139 | the 400 is returned exactly outside years 2025-2035 and months 1-12 (`Server.YearMonthAccepted`, app.py:103); otherwise the month's rows come back grouped by date, with the colour table |
| Server.Backend.ListEvents | app.py:141-157 | the GET returns every row grouped by date |
| Server.Backend.CreateEvent | app.py:159-187 | a refused or failed POST leaves the table alone; an admitted one appends the new row with the next id and returns it |
| Server.ItemStatus | app.py:216-217 | a PUT or DELETE reply has status 500 exactly when it failed, and 200 otherwise |
| Server.Backend.UpdateEvent | app.py:189-218 | an unknown id (the `NotFound` of `get_or_404`, caught by `except Exception`) and a bad date both fail with a 500 and no change; otherwise only that row is patched in place and returned |
| Server.Backend.DeleteEvent | app.py:220-233 | an unknown id fails with a 500 carrying the caught `NotFound` and no change; otherwise exactly the row with that id leaves the table and the others keep their order |

## Left out

- The DOM: building the grid, list and dialog elements, the month and weekday
  names, showing and hiding the dialog, and alerts. The model keeps only the
  classes and colour of a day cell and the state the page keeps.
- The calendar download with html2canvas (`static/js/script.js:518-590`) and the
  Escape-key listener (`static/js/script.js:593-598`): these are UI only.
- `loadAvailableYears` (`static/js/script.js:52-71`) only fills the year
  selector. The year list itself is `Server.AvailableYears`.
- `static/js/api-client.js` and `static/js/firebase-config.js` are not part of
  this model. Calls are abstract outcomes: success with a response `id`, or
  failure. The realtime backend that pushes whole user-event sets is not modelled.
- Promise concurrency. A save's callbacks are applied in call order. Since a save
  writes each date once, `Calendar.SettleEffect` shows the order does not matter.
  Interleaving with other operations is not modelled. For example, the code
  reads `selectedDate` when the delete callback runs, and a month response of a
  year the page has left still lands in `yearCalendarData`.
- JavaScript `Date` parsing, time zones, and the UTC behaviour of `toISOString`:
  a date is a (year, month, day) triple. A date input yields a real day or
  nothing.
- Calendar.Page.SaveEvent: takes the title as already trimmed; `trim` is not modelled.
- Text.ParseInt: `parseInt` is modelled on unsigned decimal text only. Signs,
  leading blanks and other radixes are not modelled; the keys never have them.
- Display.MonthEventList: a key whose day part is not a number (`parseInt` gives
  NaN) is left out of the list. With NaN the sort comparator gives an order the
  JavaScript engine chooses, so the code's list there is not determined.
- Dates.GridKeyIsIsoKey: holds only from year 1000. For earlier years, the grid's
  unpadded year and the four-digit ISO year differ.
- The mismatch between what the server sends and what the page reads. The server
  sends a list per date and the key `type`, and POST nests the new row's id under
  `event`. The page reads one object per date, `event_type`, and a top-level
  `id`. Each side is modelled on its own terms.
- Flask routing, SQLAlchemy sessions, commit and rollback. A failed request
  leaves the table as it was. Exceptions other than a `strptime` failure and the
  `NotFound` of an unknown id, such as
  database errors and non-object bodies, are not modelled.
- Server.Admit and Server.Patched: request body values are strings or absent.
  JSON numbers and nulls are not modelled, nor the `String(200)` and `String(7)`
  column limits.
- Server.ParseIsoDate: digits are ASCII only. Python's `\d` also accepts other
  Unicode decimal digits.
- Server.NextId: models SQLite's choice of the largest id plus one. A PostgreSQL
  sequence, used when `DATABASE_URL` points there, is not modelled.
- Row order of a query without `ORDER BY` is taken to be table order.
- `calendar.monthcalendar` and `calendar.month_name` (`app.py:106-107`) are
  library calls; the client's grid is modelled instead (`Calendar.Page.MonthGrid`).

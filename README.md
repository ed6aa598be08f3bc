# Conference agenda: schedule-grid engine

This project is a Dafny model of the computations behind a conference-agenda web app. The app shows one day of sessions as a grid of 10-minute blocks by room. It marks conflicts between the sessions a visitor has selected, and it keeps the visitor's selection.

The model covers three parts of the source:

- **Schedule utilities** (`src/utils/scheduleUtils.ts`), in `ScheduleUtils`:
  - `normalizeSchedule` builds the lookup maps, the per-room lists, the sorted distinct time slots and the stably sorted rooms;
  - `getScheduleForDay` scopes the schedule to one day;
  - `buildEventGridPlacements` builds the 60-entry `timeBlocks` table and one placement per session.
- **Calendar view** (`src/components/CalendarView.tsx`), in `CalendarView`:
  - the strict overlap test;
  - the pairwise conflict loop;
  - the `[block][room]` grid filled in place (an `array2`);
  - the "which event starts in this 30-minute row" search;
  - the `h:mm am|pm` row label;
  - the border-colour precedence.
- **Home page** (`app/page.tsx`), in `Page`:
  - the "my schedule" projections (`mySessions`, `myRooms`);
  - the active event and its speakers;
  - the select and deselect list updates;
  - the page state as a class, `HomePage`, whose methods replace its fields as the page's handlers do.

Supporting modules:

- `Seqs`: `Array.prototype.filter` as `Filter`, first and last index searches, subsequences.
- `StringOrder`: JavaScript's `<` on strings as `Less`, lexicographic by character, and the default `Array.prototype.sort` on strings as an insertion sort, `Sort`.
- `Decimal`: `toString` and `padStart(2, '0')` on non-negative integers.

Dafny's own `<` on strings means "proper prefix", so every string comparison of the source goes through `StringOrder.Less`. `startsWith(date)` is Dafny's prefix test `date <= s`.

Notes on the model:

- **Unknown rooms.** A session whose room is not listed still gets a placement, with an absent `roomIndex` (`Option`). The grid lookup never finds it.
- **Columns.** Room columns follow the order of the room list handed in, not the `sort` order.
- **Two grid sizes.** The `timeBlocks` table has 60 entries (9:00 to 19:00), but the calendar grid has only 54 blocks (9:00 to 18:00). A placement outside 0..54 would index a missing grid row, so the grid fill requires every non-empty placement to fit (`CalendarView.FitsGrid`). Block indices are never clamped.
- **Host time.** The host's date parsing, `new Date(s).getHours()` and `getMinutes()`, is the parameter `timeOf: string -> LocalTime`.

## Model

| member | source | states |
|---|---|---|
| Seqs.Filter | src/utils/scheduleUtils.ts:47 | `Array.prototype.filter`: every kept element comes from the input and satisfies the test; every input element that satisfies it is kept. |
| Seqs.FilterIsSubsequence | src/utils/scheduleUtils.ts:47 | A filter keeps input order: its result is a subsequence of its input. |
| Seqs.FilterCount | src/utils/scheduleUtils.ts:47 | A filter keeps each passing element exactly as often as it occurs and drops all others. |
| Seqs.FilterSnoc | src/utils/scheduleUtils.ts:15-19 | Filtering a list extended at the end extends the filtered list by that element exactly when it passes (the shape of a `push` loop). |
| Seqs.FilterIdempotent | src/utils/scheduleUtils.ts:47 | Filtering twice with the same test is filtering once. |
| Seqs.FilterCongruent | app/page.tsx:45 | Two tests that agree on every element give the same filter result. |
| Seqs.FirstWhere | app/page.tsx:50 | `Array.prototype.find`: the first index whose element passes, or none when no element passes. |
| Seqs.LastWhere | src/utils/scheduleUtils.ts:72-74 | The last index whose element passes (what a last-write-wins loop keeps), or none. |
| StringOrder.Less | src/components/CalendarView.tsx:16 | Definition of JavaScript's `<` on strings (lexicographic, a proper prefix first); its properties are in `LessIrreflexive`, `LessTransitive`, `LessTotal` and `LessAsymmetric`. |
| StringOrder.LessIrreflexive | src/components/CalendarView.tsx:16 | String `<` is irreflexive. |
| StringOrder.LessTransitive | src/components/CalendarView.tsx:16 | String `<` is transitive. |
| StringOrder.LessTotal | src/utils/scheduleUtils.ts:26 | Two different strings are ordered one way or the other. |
| StringOrder.LessAsymmetric | src/components/CalendarView.tsx:16 | String `<` never holds both ways. |
| StringOrder.Insert | src/utils/scheduleUtils.ts:26 | Inserting into a sorted list gives a sorted list holding the old elements plus the new one. |
| StringOrder.Sort | src/utils/scheduleUtils.ts:26 | `.sort()` on strings gives a non-decreasing permutation of its input. |
| StringOrder.SortDistinctStrictlySorted | src/utils/scheduleUtils.ts:26 | Sorting distinct strings gives a strictly ascending list. |
| Decimal.Show | src/components/CalendarView.tsx:70 | `n.toString()`: at least one digit, only digits, one digit exactly below 10, no leading zero. |
| Decimal.ShowValue | src/components/CalendarView.tsx:70 | Reading back the digits `toString` writes gives the number. |
| Decimal.PadStart2 | src/utils/scheduleUtils.ts:63 | `padStart(2, '0')` of a number below 100 is exactly two digits. |
| Decimal.PadStart2Value | src/utils/scheduleUtils.ts:63 | The padded digits still read back as the number. |
| ScheduleUtils.KeyBy | src/utils/scheduleUtils.ts:6-9 | A record filled by `forEach`: exactly the keys that occur, each mapped to the last element with that key. |
| ScheduleUtils.RoomKeys | src/utils/scheduleUtils.ts:6-9 | The keys of `roomMap` are exactly the input room ids. |
| ScheduleUtils.GroupByRoom | src/utils/scheduleUtils.ts:11-19 | One entry per room id, each holding exactly that room's sessions in input order; a session with an unknown room is in no entry. |
| ScheduleUtils.IsTimeOfSnoc | src/utils/scheduleUtils.ts:22-25 | The times of a list extended by one session are the old times plus its start and end. |
| ScheduleUtils.CollectTimes | src/utils/scheduleUtils.ts:21-25 | The time `Set`: each time once, and exactly the starts and ends of the sessions. |
| ScheduleUtils.TimeSlots | src/utils/scheduleUtils.ts:26 | `timeSlots` is strictly ascending in string order and holds exactly the starts and ends. |
| ScheduleUtils.InsertRoom | src/utils/scheduleUtils.ts:33 | Inserting into a list sorted by `sort` keeps it sorted and adds exactly the new room. |
| ScheduleUtils.InsertRoomBehind | src/utils/scheduleUtils.ts:33 | A room with a smaller key stays sorted in front of a sorted insertion behind it. |
| ScheduleUtils.SortRooms | src/utils/scheduleUtils.ts:33 | `rooms.slice().sort(...)` is non-decreasing by `sort` and a permutation of the input. |
| ScheduleUtils.InsertRoomStable | src/utils/scheduleUtils.ts:33 | Insertion keeps the relative order of rooms with equal keys. |
| ScheduleUtils.SortRoomsStable | src/utils/scheduleUtils.ts:33 | The room sort is stable: rooms with equal `sort` keep their input order. |
| ScheduleUtils.NormalizeSchedule | src/utils/scheduleUtils.ts:3-40 | Sessions passed through; rooms stably sorted; `roomMap` and `speakerMap` hold each id's last record; `sessionsByRoom` per room in order; `timeSlots` strictly ascending with exactly the session times. |
| ScheduleUtils.RoomsUsedBy | src/utils/scheduleUtils.ts:49-50 | No more rooms than given; every room kept is a given room whose id some session uses. Order and counts are in `RoomsUsedBySpec`. |
| ScheduleUtils.RoomsUsedBySpec | src/utils/scheduleUtils.ts:49-50 | The rooms kept are, in order and as often as they occur, exactly those whose id some given session uses. |
| ScheduleUtils.StartsOn | src/utils/scheduleUtils.ts:47 | Definition of the `startsAt.startsWith(date)` test (`date` is a prefix); its properties are in `GetScheduleForDay` and `GetScheduleForDaySpec`. |
| ScheduleUtils.GetScheduleForDay | src/utils/scheduleUtils.ts:42-52 | Speakers unchanged; a session is kept exactly when it is given and its start begins with the date; every room kept is a given room. Order and counts are in `GetScheduleForDaySpec`. |
| ScheduleUtils.GetScheduleForDaySpec | src/utils/scheduleUtils.ts:42-52 | Sessions: the subsequence whose start has the date as a prefix. Rooms: the subsequence some kept session uses. Speakers unchanged. |
| ScheduleUtils.GetScheduleForDayIdempotent | src/utils/scheduleUtils.ts:47-51 | Scoping an already scoped schedule to the same date changes nothing. |
| ScheduleUtils.TimeToBlockIndex | src/utils/scheduleUtils.ts:76-81 | The 10-minute block from 9:00 that contains the time; negative exactly before 9:00, past the table exactly from 19:00. |
| ScheduleUtils.Label | src/utils/scheduleUtils.ts:63 | Definition (`HH:MM`, both parts padded); its properties are in `BlockLabel`. |
| ScheduleUtils.BlockAt | src/utils/scheduleUtils.ts:62-67 | Definition (entry `i` of the table in closed form); its properties are in `BlockLabel`, `BlockIndexRoundTrip`, `BlockAtRange` and `BuildTimeBlocks`. |
| ScheduleUtils.BlockLabel | src/utils/scheduleUtils.ts:63 | A block's label is `HH:MM` and reads back as its hour and minute. |
| ScheduleUtils.BlockIndexRoundTrip | src/utils/scheduleUtils.ts:76-81 | A block's own hour and minute convert back to its index. |
| ScheduleUtils.TimeBlockRoundTrip | src/utils/scheduleUtils.ts:76-81 | A time within the day falls in the block at its hour and its minute rounded down to 10. |
| ScheduleUtils.BlockAtOf | src/utils/scheduleUtils.ts:60-67 | Entry `6h + k` of the table is minute `10k` of hour `9 + h`. |
| ScheduleUtils.BlockAtRange | src/utils/scheduleUtils.ts:60-61 | Every table entry lies between 9:00 and 19:00. |
| ScheduleUtils.PushBlock | src/utils/scheduleUtils.ts:62-67 | Each `push` of the nested loops appends the next table entry. |
| ScheduleUtils.BuildTimeBlocks | src/utils/scheduleUtils.ts:55-69 | The table has 60 entries; entry `i` has index `i`, hour `9 + i div 6`, minute `10 (i mod 6)` and the padded label. |
| ScheduleUtils.RoomColumn | src/utils/scheduleUtils.ts:71-74 | A room id's column is the position of the last room with that id, or absent when no room has it. |
| ScheduleUtils.ColumnIndex | src/utils/scheduleUtils.ts:71-74 | `roomIdToIndex` holds exactly the listed ids, each at its column. |
| ScheduleUtils.PlacementOf | src/utils/scheduleUtils.ts:82-91 | Definition (the session, its `RoomColumn`, and the `TimeToBlockIndex` of its start and end); its properties are in `RoomColumn` and `TimeToBlockIndex`. |
| ScheduleUtils.BuildEventGridPlacements | src/utils/scheduleUtils.ts:54-93 | The 60-entry table, and one placement per session in session order with its column (or none) and its start and end blocks. |
| CalendarView.IsOverlap | src/components/CalendarView.tsx:15-17 | Definition (half-open intervals, times compared as strings); its properties are in `OverlapSymmetricStrict` and `SameIntervalOverlaps`. |
| CalendarView.OverlapSymmetricStrict | src/components/CalendarView.tsx:15-17 | Overlap is symmetric; a session ending exactly when another starts overlaps it in neither order. |
| CalendarView.SameIntervalOverlaps | src/components/CalendarView.tsx:15-17 | Two sessions with the same non-empty interval overlap. |
| CalendarView.AllPairsConflict | src/components/CalendarView.tsx:45-52 | Visiting each pair `i < j` once finds an id exactly when it overlaps a session at another position. |
| CalendarView.ConflictStep | src/components/CalendarView.tsx:46-50 | Testing one pair adds exactly that pair's ids when they overlap. |
| CalendarView.ConflictRow | src/components/CalendarView.tsx:45-46 | The inner loop's start `j = i + 1` skips no pair, and finishing a row starts the next. |
| CalendarView.SelectedSessions | src/components/CalendarView.tsx:44 | No more sessions than given; a session is kept exactly when it is given and its id is selected. Order and counts are in `Page.MySessionsSpec`. |
| CalendarView.FindConflicts | src/components/CalendarView.tsx:41-53 | Empty when conflicts are hidden. Otherwise an id is found exactly when a selected session with it overlaps a selected session at another position. Every id found is selected and names a session. |
| CalendarView.ConflictsSelected | src/components/CalendarView.tsx:44-52 | The ids found by the full loop are exactly the conflicts, and are selected ids of known sessions. |
| CalendarView.ConflictIsSelected | src/components/CalendarView.tsx:44 | A conflicting id is a selected id of some session. |
| CalendarView.CellAt | src/components/CalendarView.tsx:57-61 | A cell holds the last placement in list order that covers it, or nothing. |
| CalendarView.CellAtSnoc | src/components/CalendarView.tsx:57-61 | One more placement overwrites exactly the cells it covers. |
| CalendarView.BuildGrid | src/components/CalendarView.tsx:55-61 | A fresh 54 × rooms grid whose every cell is the last placement covering it, or nothing; placements must fit the grid. |
| CalendarView.BuildCalendarGrid | src/components/CalendarView.tsx:39 | The placements of all sessions, and the grid they fill. |
| CalendarView.StartingEvent | src/components/CalendarView.tsx:121-132 | The placement in the first of the row's three blocks that starts there, with its block, or none and -1. |
| CalendarView.EventsInRow | src/components/CalendarView.tsx:160-169 | One entry per column with an event starting in the row, in column order, and no others; each entry's event is the placement in the first of the row's blocks that starts there (`RowEventAt`). |
| CalendarView.SingleEventIsSolo | src/components/CalendarView.tsx:170-171 | The list has one entry exactly when a single column has an event starting in the row. |
| CalendarView.RowSpan | src/components/CalendarView.tsx:199 | `Math.ceil(span / 3)`: the fewest 30-minute rows covering the blocks. |
| CalendarView.OverlapsAnother | src/components/CalendarView.tsx:172-174 | Definition of the `sessions.some(...)` test: some session with another id overlaps the event; used by `BorderColors`. |
| CalendarView.BorderColors | src/components/CalendarView.tsx:157-190 | Active beats conflicting, which beats selected, which beats solo black, which beats the base colours; solo means one event in the row and no other session overlapping. |
| CalendarView.AmPm | src/components/CalendarView.tsx:69 | Definition of the suffix choice, "am" exactly before hour 12; its properties are in `ClockTextReadsBack`. |
| CalendarView.TwelveHour | src/components/CalendarView.tsx:68 | The 12-hour clock face is between 1 and 12. |
| CalendarView.TwelveHourClock | src/components/CalendarView.tsx:68-69 | The clock face and the am/pm half give back the hour of the day. |
| CalendarView.TimeLabel | src/components/CalendarView.tsx:64-71 | Empty exactly when the row's first block is outside the 60-entry table. |
| CalendarView.LabelParts | src/components/CalendarView.tsx:70 | The template splits into hour digits, `:`, two minute digits and the suffix. |
| CalendarView.ClockText | src/components/CalendarView.tsx:68-70 | Definition (`h:mm am\|pm`); its properties are in `ClockTextReadsBack`. |
| CalendarView.ClockTextReadsBack | src/components/CalendarView.tsx:68-70 | `h:mm am\|pm` reads back as the 12-hour hour written without a leading zero (which gives the hour of day), the two-digit minute, and " am" exactly before noon. |
| CalendarView.TimeLabelReadsBack | src/components/CalendarView.tsx:64-71 | A row's label reads back as the time of the row's first block, in the unpadded `h:mm am\|pm` form. |
| CalendarView.TimeLabelExamples | src/components/CalendarView.tsx:64-71 | Row 0 is "9:00 am"; rows 20 and -1 are empty. |
| CalendarView.TimeLabelNoon | src/components/CalendarView.tsx:64-71 | Row 6 (noon) is "12:00 pm". |
| Page.IsDay | app/page.tsx:42 | Definition: the date is that of one of the three offered `Days` (app/page.tsx lines 9-13), the condition under which `allDayData.find(...)` succeeds; it is `HomePage.Valid()`, kept by every handler. |
| Page.MySessionsSpec | app/page.tsx:45 | `mySessions` is the order-preserving subsequence of the day's sessions whose id is selected. |
| Page.MySessionsOrderIndependent | app/page.tsx:45 | `mySessions` depends only on which ids are selected, not their order. |
| Page.MyRoomsSpec | app/page.tsx:46-47 | `myRooms` is the order-preserving subsequence of the day's rooms used by some selected session, no more and no fewer. |
| Page.FindSession | app/page.tsx:50 | The first day session with the active id, or none when there is no active id or no such session. |
| Page.FindSpeaker | app/page.tsx:52 | The first speaker with the id, or none when no speaker has it. |
| Page.ResolveSpeakers | app/page.tsx:52 | At most one speaker per id, each a known speaker whose id is listed. |
| Page.ResolveSpeakersAllKnown | app/page.tsx:52 | When every id is known, entry `i` is the first speaker with id `i`. |
| Page.ResolveSpeakersDropsUnknown | app/page.tsx:52 | An unknown id at either end is dropped without disturbing the rest. |
| Page.ResolveSpeakersAppend | app/page.tsx:52 | Resolving `a + b` is resolving `a` followed by resolving `b`. |
| Page.ResolveSpeakersKnownOnly | app/page.tsx:52 | Unknown ids anywhere in the list add nothing: the result equals that of the list's known ids alone. |
| Page.ResolveSpeakersSpec | app/page.tsx:52 | One entry per known id, in order; entry `i` is the first speaker with the `i`-th known id. |
| Page.ActiveSpeakers | app/page.tsx:51-53 | Empty without an active event; otherwise, for each of the event's speaker ids that the day knows, in order, the first speaker with that id. |
| Page.IsSelected | app/page.tsx:54 | Definition (an active event whose id is selected); used by `SelectSpec` and `DeselectSpec`. |
| Page.SelectIds | app/page.tsx:57 | Definition; its properties are in `SelectSpec` and `SelectThenDeselect`. |
| Page.DeselectIds | app/page.tsx:60 | Definition; its properties are in `DeselectSpec` and `SelectThenDeselect`. |
| Page.SelectSpec | app/page.tsx:56-58 | Select keeps the old list as a prefix, adds at most the active id, leaves it selected, never creates a duplicate, and changes nothing without an active event or when it is already selected. |
| Page.DeselectSpec | app/page.tsx:59-61 | Deselect removes every occurrence of the active id and keeps every other id in order and in number. |
| Page.SelectThenDeselect | app/page.tsx:56-61 | Selecting an unselected event, then deselecting it, restores the list. |
| Page.HomePage.constructor | app/page.tsx:22-25 | Initial state: nothing selected, no active event, the first day, the full view. |
| Page.HomePage.DayData | app/page.tsx:42 | Definition (`GetScheduleForDay` of the day shown, requiring that day to be offered); its properties are in `GetScheduleForDay` and `GetScheduleForDaySpec`. |
| Page.HomePage.ActiveEvent | app/page.tsx:50 | Definition (`FindSession` over the day's sessions); its properties are in `FindSession`. |
| Page.HomePage.Calendar | app/page.tsx:119-141 | The full view shows the whole day with conflicts. "My schedule" shows exactly the day's selected sessions (`mySessions`) and exactly the day's rooms they use (`myRooms`), with conflicts hidden. |
| Page.HomePage.HandleViewChange | app/page.tsx:73-103 | The buttons set the view and nothing else. |
| Page.HomePage.HandleEventClick | app/page.tsx:128 | A click makes the clicked session active and nothing else. |
| Page.HomePage.HandleSelect | app/page.tsx:56-58 | The selection becomes the select update of the old one; duplicates are never introduced. |
| Page.HomePage.HandleDeselect | app/page.tsx:59-61 | The selection becomes the deselect update of the old one. |
| Page.HomePage.HandleDayChange | app/page.tsx:63-66 | The day becomes the chosen offered day and the active event is cleared. |

## Left out

- Date parsing: `new Date(s).getHours()` and `getMinutes()` in the host's time zone are the parameter `timeOf`. Which hour a timestamp gets is not modelled.
- The `localStorage` load and save of the selection, and its `JSON.parse`: I/O.
- The ICS export button and its calendar library, `Blob`, URLs and DOM clicks: I/O and foreign code.
- The sidebar, the mobile-width hook and all JSX markup, CSS and React effect plumbing: presentation only. This includes:
  - the transparent left border when the colour is the base colour;
  - the tooltip text;
  - the speaker names joined under each event.
- `src/constants.ts` is not part of this model: no modelled file uses it.
- A live "now" indicator: the code has none.
- `Room.id` and `Room.sort` are JavaScript numbers but are modelled as `int`, so a fractional `sort` value, which the `a.sort - b.sort` comparator would accept, cannot be expressed.
- `Speaker` keeps the scalar fields; only `id` is read by the model. `links`, `sessions`, `categoryItems` and `questionAnswers` are dropped.
- `StringOrder.Less` orders characters by code point. JavaScript compares UTF-16 code units, which differs only for characters outside the Basic Multilingual Plane.
- JavaScript records are plain objects. Keys are modelled as `map` keys, and the prototype-key and number-to-string key conversions are not.
- CalendarView.BuildGrid: requires every non-empty placement to lie within the 54-block grid. The source would throw on a missing row there instead.
- CalendarView.BuildCalendarGrid: carries the same requirement, on the placements it builds, for the same reason.
- CalendarView.BuildGrid: a placement without a column writes nothing. The source sets a property named `undefined` on the row array, which no lookup reads. The precondition also excludes a column beyond the grid; placements built from the same room list never have one.
- Page.HomePage.HandleSelect: models one handler call on the rendered state. The source tests `isSelected` from the render but appends to React's latest state, so two queued updates before a re-render are not modelled.
- Page.ActiveSpeakers: a session always has a speaker list, so the `speakers || []` guard for a missing list is not modelled.
- The input arrays are left unchanged. This holds because Dafny sequences are values, not because of any modelled `slice()` copy.

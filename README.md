# Pool booking widgets: a verified model

This project models the logic of three React components of a swimming-pool booking front end:

- **The four-wheel booking widget** (`PoolWheelWidget`). Four scroll wheels pick a date, an hour between 07:00 and 21:00, and show the free lanes and free places of that hour. The widget also has a booking button.
- **The workload bar chart** (`PoolWorkload`). For each hour of the selected date, a bar of ten segments lights one segment per free lane. A card shows how many places are free right now.
- **The booking time grid** (`SlotPicker`). It pages through the calendar dates and shows one cell per hour. Each cell is a button for a bookable appointment or an inactive label.

The state these components keep in React hooks is modelled as Dafny classes:

- the wheel's event refs (`GestureWheel.Wheel`);
- the widget's slots, date index and chosen hour (`PoolWheel.Widget`);
- the chart's slots, server date and chip index (`PoolWorkload.Chart`);
- the grid's date index and chosen slot (`SlotPicker.Picker`).

Each handler is a method whose postcondition states the new state in terms of specification functions. Those functions carry the lemmas that state what the components promise.

Shared pieces:

- `HourAxis` holds the fixed 07..21 axis.
- `Builtins` holds `Math.min`, `Math.max` and `Array.prototype.indexOf`.
- `Calendar` holds ISO dates: their text form, their parsing, and the fact that the ISO order is chronological. It also holds the proleptic Gregorian weekday as `Date.prototype.getDay` numbers it, the lunch-break rule, and the Russian day-and-month labels.
- `StringOrder` holds JavaScript's default sort order on strings (compared by code point, see below), the sort itself, and first-occurrence de-duplication (`includes`/`push` and the iteration order of a `Set`).
- `Digits` holds decimal text: `pad2`, `Number(...)` on digit strings, and fixed-width numbers.
- `Wrappers` holds `Option` and stands in for `undefined`/`null`.

The browser's clock, the time zone and the touch coordinates are parameters of the model.

Files: `wrappers.dfy`, `builtins.dfy`, `digits.dfy`, `string_order.dfy`, `calendar.dfy`, `hour_axis.dfy`, `wheel.dfy`, `pool_wheel_widget.dfy`, `pool_workload.dfy`, `slot_picker.dfy`.

## Model

| member | source | states |
|---|---|---|
| HourAxis.Hours | src/components/PoolWheelWidget.tsx:15-20 | the axis has 15 hours and hour i is 7 + i |
| Builtins.IndexOf | src/components/PoolWheelWidget.tsx:221 | the result is -1 exactly when the value is absent; otherwise it is the first position holding the value |
| HourAxis.AxisIndexOf | src/components/PoolWheelWidget.tsx:219-223 | on the axis an hour 7..21 is found at hour - 7, and any other hour is not found |
| Digits.Pad2Properties | src/components/PoolWheelWidget.tsx:31 | `pad2(n)` is all digits, at least two long, reads back as n, and for n < 100 is exactly two digits |
| Digits.NatToStringRoundTrip | src/components/PoolWheelWidget.tsx:29 | the decimal text of a number reads back as the number |
| StringOrder.LessTotal | src/components/PoolWheelWidget.tsx:191 | the default sort order puts any two different strings one way or the other |
| StringOrder.LessTransitive | src/components/PoolWheelWidget.tsx:191 | the default sort order is transitive |
| StringOrder.Sort | src/components/PoolWheelWidget.tsx:191 | `sort()` returns a sorted permutation of its input |
| StringOrder.Dedup | src/components/PoolWheelWidget.tsx:190 | the first-occurrence list has no repeats and holds exactly the input's elements |
| StringOrder.SortedDistinctSpec | src/components/PoolWorkload.tsx:163-167 | de-duplicating and then sorting gives a strictly increasing list of exactly the input's elements |
| StringOrder.StrictlySortedUnique | src/components/PoolWorkload.tsx:166 | there is only one strictly increasing arrangement of a set of strings |
| Calendar.ParseFormatRoundTrip | src/components/PoolWheelWidget.tsx:28 | a valid date's ISO text parses back to that date |
| Calendar.FormatParseRoundTrip | src/components/PoolWheelWidget.tsx:28 | a string that parses as a date is that date's ISO text |
| Calendar.IsoOrderIsChronological | src/components/PoolWheelWidget.tsx:191 | the default string order on ISO texts of valid dates is the calendar order, in both directions |
| Calendar.DayNumberNext | src/components/PoolWheelWidget.tsx:35 | the day count goes up by exactly one from each valid day to the next |
| Calendar.WeekdayNext | src/components/PoolWheelWidget.tsx:35 | consecutive days have consecutive `getDay` weekdays |
| Calendar.June2024 | src/components/PoolWheelWidget.tsx:35 | 2024-06-03 parses and is a Monday; 2024-06-08 parses and is a Saturday |
| Calendar.IsBreakHourIff | src/components/PoolWheelWidget.tsx:32-37 | a break is the hour 12 of a parsable date that falls Monday to Friday; an empty date never has a break |
| Calendar.BreakAsWrittenAgreesEastOfUtc | src/components/PoolWheelWidget.tsx:35 | at UTC and east of it, the source's weekday test equals the calendar one |
| Calendar.BreakAsWrittenShiftsWestOfUtc | src/components/PoolWorkload.tsx:72-76 | at UTC-5, Monday 2024-06-03 loses its break and Saturday 2024-06-08 gains one |
| Calendar.FormatDayMonthRu | src/components/PoolWheelWidget.tsx:26-30 | the label is empty exactly for the empty date |
| Calendar.FormatDayMonthRuOfDate | src/components/PoolWorkload.tsx:54-62 | a date's label is its day without a leading zero and its month in the genitive, and the day reads back as its number |
| GestureWheel.Clamp | src/components/PoolWheelWidget.tsx:65 | the result is in range for a non-empty list and equals the input when that is in range; it is 0 below or for an empty list, and the last index above |
| GestureWheel.Step | src/components/PoolWheelWidget.tsx:72 | the step is +1 exactly for a positive delta, and -1 otherwise |
| GestureWheel.WalkSpec | src/components/PoolWheelWidget.tsx:71-73 | the skip walk stops on the first index ahead that is not disabled, or is the active index; it is stuck exactly when every index ahead is disabled |
| GestureWheel.ShiftHangsIff | src/components/PoolWheelWidget.tsx:67-76 | `shift` as written never returns exactly when the list is non-empty and every index from its first target to the boundary is disabled and not active |
| GestureWheel.HourWheelHangs | src/components/PoolWheelWidget.tsx:71-73 | on 15 rows with row 13 active and row 14 disabled, a step down never returns |
| GestureWheel.ShiftFixedAgrees | src/components/PoolWheelWidget.tsx:67-76 | wherever the source's `shift` returns, the corrected one emits the same index, or nothing where the source emits nothing |
| GestureWheel.ShiftFixedSpec | src/components/PoolWheelWidget.tsx:67-76 | the corrected `shift` emits nothing for an empty list or when every index ahead is blocked; otherwise it emits the first index ahead that is enabled or active |
| GestureWheel.Shift | src/components/PoolWheelWidget.tsx:67-76 | the loop ends, and emits what the corrected `shift` specifies |
| GestureWheel.Click | src/components/PoolWheelWidget.tsx:137 | a click emits its own index exactly when that index is not disabled |
| GestureWheel.TranslateY | src/components/PoolWheelWidget.tsx:122 | the offset puts the active item's top on the 120 px window line |
| GestureWheel.TranslateStep | src/components/PoolWheelWidget.tsx:122 | one step down moves the strip up by one item height |
| GestureWheel.Wheel.constructor | src/components/PoolWheelWidget.tsx:62-63 | no wheel time yet and no drag in progress |
| GestureWheel.Wheel.OnWheel | src/components/PoolWheelWidget.tsx:82-88 | within 70 ms of the last accepted event nothing changes; otherwise the time is stored and one step is taken, down for a positive deltaY |
| GestureWheel.Wheel.OnTouchStart | src/components/PoolWheelWidget.tsx:89-92 | the first touch's y is remembered; an event without touches changes nothing |
| GestureWheel.Wheel.OnTouchMove | src/components/PoolWheelWidget.tsx:93-101 | without a drag or within 26 px nothing happens; beyond 26 px one step is taken, down when the finger moved up, and the drag restarts at y |
| GestureWheel.Wheel.OnTouchEnd | src/components/PoolWheelWidget.tsx:102 | the drag is forgotten |
| PoolWheel.DatesSpec | src/components/PoolWheelWidget.tsx:188-192 | `dates` is strictly increasing and holds exactly the slot dates |
| PoolWheel.UniqueDates | src/components/PoolWheelWidget.tsx:188-192 | the `includes`/`push` loop followed by `sort()` yields `dates` |
| PoolWheel.CurrentDate | src/components/PoolWheelWidget.tsx:194 | the current date is defined exactly for an index in range, and is then that entry |
| PoolWheel.DateHoursSet | src/components/PoolWheelWidget.tsx:197-201 | the set holds exactly the hours with a slot on the current date, in first-insertion order |
| PoolWheel.NearestIn | src/components/PoolWheelWidget.tsx:209-214 | the pick is one of the hours and at least as near as every other, the earlier one on a tie |
| PoolWheel.NearestUnique | src/components/PoolWheelWidget.tsx:213 | the nearest hour, with ties going to the earlier one, is unique |
| PoolWheel.RepairSpec | src/components/PoolWheelWidget.tsx:204-216 | the hour changes only when the date is defined, the hour is set and missing, and the date has hours; it then becomes the nearest hour the date offers |
| PoolWheel.RepairIdempotent | src/components/PoolWheelWidget.tsx:204-216 | running the effect again after it fired changes nothing |
| PoolWheel.RepairScan | src/components/PoolWheelWidget.tsx:209-214 | the strict-`<` scan over ascending hours returns an available hour nearest the target, the earlier one on a tie |
| PoolWheel.SortAscending | src/components/PoolWheelWidget.tsx:207 | the numeric sort of the set's hours is increasing and holds exactly those hours |
| PoolWheel.MinHour | src/components/PoolWheelWidget.tsx:168 | the first hour after the numeric sort is the least slot hour |
| PoolWheel.InitHour | src/components/PoolWheelWidget.tsx:165-173 | an empty load clears the hour; a non-empty load keeps a set hour, or else sets the least hour of the load |
| PoolWheel.HourIndex | src/components/PoolWheelWidget.tsx:219-223 | the wheel row is hour - 7 for hours 7..21, and row 0 with no hour or an off-axis hour |
| PoolWheel.DisabledIndices | src/components/PoolWheelWidget.tsx:225-236 | the disabled rows are every row when there is no date, and otherwise exactly the rows whose hour has no slot on the date |
| PoolWheel.BreakIndices | src/components/PoolWheelWidget.tsx:238-246 | the break rows are exactly the rows whose hour is the date's break, and none without a date |
| PoolWheel.BreakRows | src/components/PoolWheelWidget.tsx:242 | the only break row is the 12:00 row, on Monday to Friday |
| PoolWheel.HourWheel | src/components/PoolWheelWidget.tsx:327-334 | the time wheel has 15 rows, the chosen hour's row active, and exactly the disabled rows disabled |
| PoolWheel.FindSlot | src/components/PoolWheelWidget.tsx:250 | nothing is found exactly when no slot has the date and hour; otherwise the first such slot is found |
| PoolWheel.CanBookIff | src/components/PoolWheelWidget.tsx:293 | booking is open exactly when the date is defined, the hour is set, the date has a slot at that hour, and the hour is not the date's break |
| PoolWheel.TimeItemsSpec | src/components/PoolWheelWidget.tsx:257-259 | a row shows "ПЕРЕРЫВ" exactly on a break row; otherwise it shows its hour in two digits followed by ":00" |
| PoolWheel.CountsSpec | src/components/PoolWheelWidget.tsx:262-272 | lanes and places are 0 on break rows and on rows without a slot; on the row of a bookable hour they are the chosen slot's own numbers |
| PoolWheel.Widget.constructor | src/components/PoolWheelWidget.tsx:150-155 | no slots, date index 0, no hour |
| PoolWheel.Widget.ApplyRepair | src/components/PoolWheelWidget.tsx:204-216 | the effect leaves the slots and the date index unchanged, and moves the hour as the repair specifies |
| PoolWheel.Widget.Load | src/components/PoolWheelWidget.tsx:162-173 | the slots are replaced, the date index kept, and the hour initialised and then repaired |
| PoolWheel.Widget.HandleDateChange | src/components/PoolWheelWidget.tsx:275-278 | the date index is set and the hour repaired for the new date |
| PoolWheel.Widget.HandleHourChange | src/components/PoolWheelWidget.tsx:280-282 | the hour becomes the row's hour, or none off the axis, and is then repaired |
| PoolWheel.HourStepNeedsNoRepair | src/components/PoolWheelWidget.tsx:327-334 | a wheel step that moves the time wheel lands on an hour the date offers, so the repair keeps it |
| PoolWorkload.CollectDates | src/components/PoolWorkload.tsx:163-167 | `Array.from(set).sort()` is strictly increasing and holds exactly the slot dates |
| PoolWorkload.SyncedIndex | src/components/PoolWorkload.tsx:169-174 | a non-empty server date in the list selects its first position; otherwise, including an empty server date, the selection stays |
| PoolWorkload.SyncedIndexUnique | src/components/PoolWorkload.tsx:171 | in the increasing date list the server date is selected at its only position |
| PoolWorkload.BuildFreeMatrix | src/components/PoolWorkload.tsx:176-183 | the table has a row for exactly the slot dates, and each entry holds the lanes of the last slot with that date and hour |
| PoolWorkload.LastSlotWins | src/components/PoolWorkload.tsx:180 | a slot with no later slot of the same date and hour is the one the table keeps |
| PoolWorkload.NoSlotNoEntry | src/components/PoolWorkload.tsx:176-183 | a date and hour with no slot has no entry |
| PoolWorkload.HourValueSpec | src/components/PoolWorkload.tsx:289-290 | an hour's value is 0 on a break, and otherwise the lanes of its last slot, or 0 without one; an undefined date reads the row stored under "undefined" |
| PoolWorkload.LitCountPrefix | src/components/PoolWorkload.tsx:324-339 | among the top n segments, the lit ones are those from 10 - value down; none are lit on a break |
| PoolWorkload.LitSegments | src/components/PoolWorkload.tsx:339 | a bar lights as many of its ten segments as its value, cut to 0..10, and none on a break |
| PoolWorkload.LitFromBottom | src/components/PoolWorkload.tsx:339 | every segment below a lit segment is lit |
| PoolWorkload.FreePlaces | src/components/PoolWorkload.tsx:203-205 | "—" exactly without an occupancy figure; otherwise never negative, adding up with the occupancy to 120, or 0 when the pool is over 120 |
| PoolWorkload.PopupPlaces | src/components/PoolWorkload.tsx:120 | the pop-up's places are the value times 12, at most 120 for at most ten lanes, and all 120 exactly when all ten lanes are free |
| PoolWorkload.SourceNote | src/components/PoolWorkload.tsx:207-212 | there is a note exactly for the sources "previousHour", "none" and "error", and each of the three gets its own text |
| PoolWorkload.BarsFitWidth | src/components/PoolWorkload.tsx:321 | every bar lies between the paddings, the last one ends at the right padding, and each hour label sits over its own bar |
| PoolWorkload.SegmentsFitHeight | src/components/PoolWorkload.tsx:325 | the segments and the hour labels fit in the chart's height |
| PoolWorkload.Chart.constructor | src/components/PoolWorkload.tsx:127-131 | no slots, no `currentNow` record, no server date, chip 0 |
| PoolWorkload.Chart.Receive | src/components/PoolWorkload.tsx:148-150 | the response's slots, `currentNow` record and server date are stored, the chip moves to the server date's position in the new date list (lines 169-174), and the card shows "—" exactly when the new record has no occupancy figure |
| PoolWorkload.Chart.SelectChip | src/components/PoolWorkload.tsx:255 | a click selects the chip's index and changes nothing else |
| SlotPicker.AllTimesText | src/components/SlotPicker.tsx:47-63 | the fixed times are 07:00 to 21:00 on the hour, with 12:00 in sixth place |
| SlotPicker.TimeTextInjective | src/components/SlotPicker.tsx:91-95 | different times have different "HH:MM" texts, so a table keyed by time is keyed by text |
| SlotPicker.PagerSpec | src/components/SlotPicker.tsx:115-136 | both buttons keep a valid index valid and move it by one; "<" is disabled exactly at 0 and ">" exactly at the last index |
| SlotPicker.Picker.constructor | src/components/SlotPicker.tsx:28-36 | the index starts where given, with no slot chosen |
| SlotPicker.Picker.Prev | src/components/SlotPicker.tsx:115 | the index becomes max(i - 1, 0) and the choice is kept |
| SlotPicker.Picker.Next | src/components/SlotPicker.tsx:135 | the index becomes min(i + 1, length - 1) and the choice is kept |
| SlotPicker.Picker.Choose | src/components/SlotPicker.tsx:169 | a click on a button chooses that button's slot |
| SlotPicker.SlotsByTimeSpec | src/components/SlotPicker.tsx:89-96 | the table has an entry for exactly the times some slot starts at, and it holds the last slot of the list starting then |
| SlotPicker.BuildSlotsByTime | src/components/SlotPicker.tsx:89-96 | the `forEach` leaves the table that the specification describes |
| SlotPicker.CellAsWrittenAgreesOnUtcDay | src/components/SlotPicker.tsx:82 | when the UTC date is the local date, the source's rule and the corrected rule agree on every cell |
| SlotPicker.PastSlotStaysBookable | src/components/SlotPicker.tsx:159 | at 20:00 in New York on 2024-06-03 the source still offers that day's 09:00 slot, and the corrected rule does not |
| SlotPicker.CellFor | src/components/SlotPicker.tsx:151-177 | a cell keeps its time, and a time already started today is inactive |
| SlotPicker.CellSpec | src/components/SlotPicker.tsx:151-177 | a cell is a button exactly when it is not a working day's 12:00, a slot starts then, and it has not started yet today; it is selected exactly when its appointment id is the chosen one, and it books the last slot at that time |
| SlotPicker.ChooseMarksCell | src/components/SlotPicker.tsx:162 | after a choice, exactly the buttons with the chosen appointment id are marked selected |
| SlotPicker.Render | src/components/SlotPicker.tsx:65-200 | a spinner exactly while loading, nothing exactly with no dates, and otherwise 15 cells in axis order, each the cell the booking rule gives for its time, with the pager disabled at its ends |
| SlotPicker.LunchCellInactive | src/components/SlotPicker.tsx:152-154 | on a working day the 12:00 cell is inactive even when a slot starts then |

## Left out

- Fetching and its flags. `fetchData`, the loading and error states and the refresh buttons are network I/O. The model starts from the loaded slot list (`PoolWheel.Widget.Load`, `PoolWorkload.Chart.Receive`).
- Event wiring. The wheel's `addEventListener`/`removeEventListener` registration, `preventDefault` and the passive options are not modelled. Each handler is a method called with the event's data.
- The clock. `performance.now()` and `new Date()` are parameters: `now` of `OnWheel`, and `SlotPicker.Clock`.
- Daylight-saving changes are not modelled. `SlotPicker.MsOfDay` counts a day as exactly 24 hours.
- Rendering. The following produce no value that the components compute from:
  - CSS classes and styles;
  - the colour gradient (`lerpColor`, floating point);
  - the SVG elements and the break text;
  - the pop-up's position and its `hour:00 — hour+1:00` caption;
  - the pop-up's 350 ms hide timer;
  - the scroll buttons.
- Locale formatting. `toLocaleTimeString`, `formatDatePretty` and `getWeekdayRu` are not modelled. A slot's start is given as its local hour and minute (`SlotPicker.Time`). The picker's date title and the chart's weekday names are not modelled.
- `dates.map(formatDateRuLong)`, the labels of the date wheel, is modelled one label at a time by `Calendar.FormatDayMonthRu`.
- Calendar.FormatDayMonthRu: requires either the empty text or zero-padded `YYYY-MM-DD` text with a month of 01..12. The source reads the groups with `Number`, so it also prints a correct label for other numeric shapes, such as "3 июня" for "2024-6-3" or "24-06-03". Only non-numeric groups give `NaN`, and only a month outside 1..12 gives `undefined`. None of these other inputs is modelled.
- Calendar.ParseIso: text that is not a real calendar day, such as 2024-02-30, counts as no date. Some JavaScript engines roll such text over into the next month.
- GestureWheel.Wheel.OnTouchMove: takes the first touch's y as given. A move event without touches would throw in the source.
- Numbers are unbounded integers. Fractional timestamps from `performance.now()` and fractional touch coordinates (`clientY`) are modelled as whole milliseconds and whole pixels.
- StringOrder.Less: compares strings by code point, while JavaScript's default sort compares UTF-16 code units. The two orders agree on strings without characters above U+FFFF, such as ISO dates.
- The re-rendering between a state change and React's effects is not modelled. The widget's repair effect runs at the end of each handler that can trigger it.

## Findings

| source | as written | input that shows it | evidently intended | confidence | as-written member | corrected member |
|---|---|---|---|---|---|---|
| src/components/PoolWheelWidget.tsx:71-73 | the skip loop in `shift` never ends once `clamp` pins `next` on a disabled boundary index that is not the active one | time wheel with 20:00 active and no slot at 21:00; one wheel step down | the step emits nothing and the wheel stays put | not executed | GestureWheel.HourWheelHangs | GestureWheel.Shift |
| src/components/PoolWheelWidget.tsx:35 | `new Date(iso).getDay()` reads midnight UTC in the local time zone, so west of UTC every date gets the previous day's weekday (the same test is at src/components/PoolWorkload.tsx:74) | "2024-06-03" (a Monday) and "2024-06-08" (a Saturday) at UTC-5 | the break falls on Monday to Friday of the calendar date | not executed | Calendar.BreakAsWrittenShiftsWestOfUtc | Calendar.IsBreakHourIff |
| src/components/SlotPicker.tsx:82 | the "today" for the past-slot test is the UTC date from `toISOString()`, so on the local today the test is skipped whenever the UTC date differs | 20:00 in New York on 2024-06-03 (already 2024-06-04 in UTC), with a slot at 09:00 that day | a slot that has already started on the local today is inactive | not executed | SlotPicker.PastSlotStaysBookable | SlotPicker.CellFor |

/** The time grid of the booking flow (`SlotPicker`): a pager over the calendar dates
    and, for the selected date, one cell per hour from 07:00 to 21:00 that is either a
    button for a bookable slot or an inactive label. */
module SlotPicker {
  import opened Wrappers
  import opened Digits
  import opened StringOrder
  import Calendar
  import HourAxis

  /** A local wall-clock time of day, as `toLocaleTimeString` renders it: "HH:MM". */
  datatype Time = Time(hour: int, minute: int)

  /** A bookable appointment and the local start time of its `start_date`. */
  datatype Slot = Slot(appointmentId: string, start: Time)

  /** The moment the grid is drawn: the date part of `toISOString()` (UTC), and the local
      date and milliseconds since local midnight. */
  datatype Clock = Clock(utcDate: string, localDate: string, localMs: int)

  /** One cell of the grid. */
  datatype Cell = Inactive(time: Time) | Bookable(time: Time, slot: Slot, selected: bool)

  /** What the component renders. */
  datatype View =
    | Spinner
    | Nothing
    | Grid(date: Option<string>, prevDisabled: bool, nextDisabled: bool, cells: seq<Cell>, chosen: Option<Time>)

  /** The props the grid is drawn from. */
  datatype Props = Props(
    slotsByDate: map<string, seq<Slot>>,
    calendarDates: seq<string>,
    currentDateIdx: int,
    selectedSlot: Option<Slot>,
    isLoading: bool)

  /** The always-inactive lunch cell of a working day. */
  const BreakTime := Time(12, 0)

  /* ---------- The fixed times ---------- */

  /** `ALL_TIMES`: the full hours of the axis. */
  function AllTimes(): (r: seq<Time>)
    ensures |r| == 15
  {
    seq(15, i requires 0 <= i < 15 => Time(HourAxis.Hours()[i], 0))
  }

  /** The text of a time: two-digit hour, a colon, two-digit minute. */
  function TimeText(t: Time): string
    requires 0 <= t.hour < 100 && 0 <= t.minute < 100
  {
    Pad2(t.hour) + ":" + Pad2(t.minute)
  }

  /** The fixed times are "07:00", "08:00", ..., "21:00", and "12:00" is the sixth. */
  lemma AllTimesText(i: int)
    requires 0 <= i < 15
    ensures AllTimes()[i] == Time(HourAxis.HourStart + i, 0)
    ensures TimeText(AllTimes()[i]) == Fixed(HourAxis.HourStart + i, 2) + ":00"
    ensures AllTimes()[i] == BreakTime <==> i == 5
  {
    var h := HourAxis.HourStart + i;
    assert AllTimes()[i] == Time(HourAxis.Hours()[i], 0);
    assert Pad2(h) == Fixed(h, 2) by {
      Pad2Properties(h);
    }
    assert Pad2(0) == "00" by {
      Pad2Properties(0);
      assert Fixed(0, 2) == Fixed(0, 1) + [DigitChar(0)];
    }
    assert Pad2(h) + ":" + Pad2(0) == Fixed(h, 2) + ":00";
  }

  /** Distinct times have distinct texts, so keying the table by time is keying it by
      the "HH:MM" text. */
  lemma TimeTextInjective(a: Time, b: Time)
    requires 0 <= a.hour < 100 && 0 <= a.minute < 100
    requires 0 <= b.hour < 100 && 0 <= b.minute < 100
    requires TimeText(a) == TimeText(b)
    ensures a == b
  {
    Pad2Properties(a.hour);
    Pad2Properties(a.minute);
    Pad2Properties(b.hour);
    Pad2Properties(b.minute);
    assert TimeText(a)[..2] == Pad2(a.hour) && TimeText(a)[3..] == Pad2(a.minute);
    assert TimeText(b)[..2] == Pad2(b.hour) && TimeText(b)[3..] == Pad2(b.minute);
  }

  /* ---------- Navigation ---------- */

  /** The "<" button: `Math.max(i - 1, 0)`. */
  function PrevIndex(i: int): int
  {
    if i - 1 >= 0 then i - 1 else 0
  }

  /** The ">" button: `Math.min(i + 1, calendarDates.length - 1)`. */
  function NextIndex(i: int, count: nat): int
  {
    if i + 1 <= count - 1 then i + 1 else count - 1
  }

  /** Both buttons keep a valid index valid; each moves by one, and a button is
      disabled exactly where it would not move. */
  lemma PagerSpec(i: int, count: nat)
    requires 0 <= i < count
    ensures 0 <= PrevIndex(i) < count && 0 <= NextIndex(i, count) < count
    ensures PrevIndex(i) == i <==> i == 0
    ensures NextIndex(i, count) == i <==> i == count - 1
    ensures i != 0 ==> PrevIndex(i) == i - 1
    ensures i != count - 1 ==> NextIndex(i, count) == i + 1
  {
  }

  /** The parent's `currentDateIdx` and `selectedSlot` state as the grid changes it. */
  class Picker {
    var currentDateIdx: int
    var selectedSlot: Option<Slot>

    constructor (start: int)
      ensures currentDateIdx == start && selectedSlot == None
    {
      currentDateIdx := start;
      selectedSlot := None;
    }

    /** The "<" button. */
    method Prev()
      modifies this
      ensures currentDateIdx == PrevIndex(old(currentDateIdx))
      ensures selectedSlot == old(selectedSlot)
    {
      currentDateIdx := if currentDateIdx - 1 >= 0 then currentDateIdx - 1 else 0;
    }

    /** The ">" button. */
    method Next(count: nat)
      modifies this
      ensures currentDateIdx == NextIndex(old(currentDateIdx), count)
      ensures selectedSlot == old(selectedSlot)
    {
      currentDateIdx := if currentDateIdx + 1 <= count - 1 then currentDateIdx + 1 else count - 1;
    }

    /** A click on a bookable cell selects the slot it books. */
    method Choose(c: Cell)
      requires c.Bookable?
      modifies this
      ensures selectedSlot == Some(c.slot)
      ensures currentDateIdx == old(currentDateIdx)
    {
      selectedSlot := Some(c.slot);
    }
  }

  /* ---------- The table of slots by time ---------- */

  /** `slotsByTime` as the `forEach` leaves it: every slot written under its time over
      any earlier one. */
  function SlotsByTime(slots: seq<Slot>): map<Time, Slot>
  {
    if slots == [] then map[]
    else
      var last := slots[|slots| - 1];
      SlotsByTime(slots[..|slots| - 1])[last.start := last]
  }

  /** `slots[k]` is the last slot that starts at `t`. */
  predicate LastAt(slots: seq<Slot>, t: Time, k: int)
  {
    0 <= k < |slots| && slots[k].start == t &&
    forall j :: k < j < |slots| ==> slots[j].start != t
  }

  /** The table has an entry for exactly the times some slot starts at, and the entry is
      the last slot of the list that starts then. */
  lemma {:induction false} SlotsByTimeSpec(slots: seq<Slot>, t: Time)
    ensures t in SlotsByTime(slots) <==> exists s :: s in slots && s.start == t
    ensures t in SlotsByTime(slots) ==> exists k :: LastAt(slots, t, k) && slots[k] == SlotsByTime(slots)[t]
    decreases |slots|
  {
    if slots != [] {
      var init := slots[..|slots| - 1];
      var last := slots[|slots| - 1];
      assert slots == init + [last];
      SlotsByTimeSpec(init, t);
      assert forall s :: s in slots <==> s in init || s == last;
      if last.start == t {
        assert LastAt(slots, t, |slots| - 1);
      } else if t in SlotsByTime(slots) {
        var k :| LastAt(init, t, k) && init[k] == SlotsByTime(init)[t];
        assert LastAt(slots, t, k);
      }
    }
  }

  /** The `forEach` that fills `slotsByTime`. */
  method BuildSlotsByTime(slots: seq<Slot>) returns (table: map<Time, Slot>)
    ensures table == SlotsByTime(slots)
  {
    table := map[];
    for i := 0 to |slots|
      invariant table == SlotsByTime(slots[..i])
    {
      assert slots[..i + 1][..i] == slots[..i];
      table := table[slots[i].start := slots[i]];
    }
    assert slots[..|slots|] == slots;
  }

  /* ---------- The cells ---------- */

  /** `selectedDate`: undefined outside the list. */
  function SelectedDate(p: Props): Option<string>
  {
    if 0 <= p.currentDateIdx < |p.calendarDates| then Some(p.calendarDates[p.currentDateIdx]) else None
  }

  /** `slotsByDate[selectedDate] || []`; an undefined selected date is used as a key as
      the text "undefined". */
  function SlotList(p: Props): seq<Slot>
  {
    var key := SelectedDate(p).GetOr("undefined");
    if key in p.slotsByDate then p.slotsByDate[key] else []
  }

  /** `isWorkingDay`: the local midnight of the date falls on Monday to Friday. */
  predicate WorkingDay(date: Option<string>)
  {
    date.Some? && Calendar.IsWorkingDay(date.value)
  }

  /** The milliseconds from local midnight to a time of day. */
  function MsOfDay(t: Time): int
  {
    (t.hour * 60 + t.minute) * 60000
  }

  /** `slotDate < nowLocal`: the cell's start on `date` is before the moment the grid is
      drawn. Dates compare in the default string order, which is the calendar order on
      ISO dates. */
  predicate StartsBeforeNow(date: string, t: Time, clock: Clock)
  {
    Less(date, clock.localDate) || (date == clock.localDate && MsOfDay(t) < clock.localMs)
  }

  /** The cell for one fixed time as the source decides it: the past test runs only when
      the selected date is the date part of `toISOString()`, the UTC date. */
  function CellAsWritten(t: Time, date: Option<string>, table: map<Time, Slot>, selected: Option<Slot>, clock: Clock): Cell
  {
    if WorkingDay(date) && t == BreakTime then Inactive(t)
    else if t !in table then Inactive(t)
    else if date.Some? && date.value == clock.utcDate && StartsBeforeNow(date.value, t, clock) then Inactive(t)
    else Bookable(t, table[t], selected.Some? && selected.value.appointmentId == table[t].appointmentId)
  }

  /** The cell's time has already started today, on the local calendar. */
  predicate PastToday(date: Option<string>, t: Time, clock: Clock)
  {
    date == Some(clock.localDate) && MsOfDay(t) < clock.localMs
  }

  /** The cell for one fixed time as evidently intended: the past test runs on the local
      date, the day the user is living in. */
  function CellFor(t: Time, date: Option<string>, table: map<Time, Slot>, selected: Option<Slot>, clock: Clock): (c: Cell)
    ensures c.time == t
    ensures PastToday(date, t, clock) ==> c.Inactive?
  {
    if WorkingDay(date) && t == BreakTime then Inactive(t)
    else if t !in table then Inactive(t)
    else if PastToday(date, t, clock) then Inactive(t)
    else Bookable(t, table[t], selected.Some? && selected.value.appointmentId == table[t].appointmentId)
  }

  /** Where the UTC date is the local date the two rules agree. */
  lemma CellAsWrittenAgreesOnUtcDay(t: Time, date: Option<string>, table: map<Time, Slot>, selected: Option<Slot>, clock: Clock)
    requires clock.utcDate == clock.localDate
    ensures CellAsWritten(t, date, table, selected, clock) == CellFor(t, date, table, selected, clock)
  {
    if date.Some? && date.value == clock.localDate {
      LessIrreflexive(date.value);
    }
  }

  /** In New York at 20:00 on Monday 2024-06-03 it is already 2024-06-04 in UTC, so the
      source offers the 09:00 slot of that Monday, eleven hours past; the corrected rule
      does not. */
  lemma PastSlotStaysBookable()
    ensures var clock := Clock("2024-06-04", "2024-06-03", 20 * 3600000);
      var table := map[Time(9, 0) := Slot("a", Time(9, 0))];
      PastToday(Some("2024-06-03"), Time(9, 0), clock) &&
      CellAsWritten(Time(9, 0), Some("2024-06-03"), table, None, clock) == Bookable(Time(9, 0), Slot("a", Time(9, 0)), false) &&
      CellFor(Time(9, 0), Some("2024-06-03"), table, None, clock) == Inactive(Time(9, 0))
  {
  }

  /** A cell is a button exactly when it is not the lunch cell of a working day, a slot
      starts at its time, and that start is not already past today; the button is marked
      selected exactly when its slot has the selected slot's id. The button books the last
      slot that starts at its time. */
  lemma CellSpec(t: Time, p: Props, clock: Clock)
    ensures var date := SelectedDate(p);
      var c := CellFor(t, date, SlotsByTime(SlotList(p)), p.selectedSlot, clock);
      (c.Bookable? <==>
        !(WorkingDay(date) && t == BreakTime) &&
        (exists s :: s in SlotList(p) && s.start == t) &&
        !PastToday(date, t, clock)) &&
      (c.Bookable? ==>
        (c.selected <==> p.selectedSlot.Some? && p.selectedSlot.value.appointmentId == c.slot.appointmentId) &&
        exists k :: LastAt(SlotList(p), t, k) && SlotList(p)[k] == c.slot)
  {
    SlotsByTimeSpec(SlotList(p), t);
  }

  /** What the component shows: a spinner while loading, nothing without dates, and
      otherwise the pager and one cell per fixed time. */
  function Render(p: Props, clock: Clock): (v: View)
    ensures p.isLoading <==> v == Spinner
    ensures !p.isLoading && p.calendarDates == [] <==> v == Nothing
    ensures v.Grid? ==>
      |v.cells| == 15 && v.date == SelectedDate(p) &&
      (v.prevDisabled <==> p.currentDateIdx == 0) &&
      (v.nextDisabled <==> p.currentDateIdx == |p.calendarDates| - 1) &&
      (v.chosen.Some? <==> p.selectedSlot.Some?) &&
      (v.chosen.Some? ==> v.chosen.value == p.selectedSlot.value.start) &&
      forall i :: 0 <= i < 15 ==>
        v.cells[i].time == AllTimes()[i] &&
        v.cells[i] == CellFor(AllTimes()[i], SelectedDate(p), SlotsByTime(SlotList(p)), p.selectedSlot, clock)
  {
    if p.isLoading then Spinner
    else if p.calendarDates == [] then Nothing
    else
      var date := SelectedDate(p);
      var table := SlotsByTime(SlotList(p));
      Grid(date, p.currentDateIdx == 0, p.currentDateIdx == |p.calendarDates| - 1,
        seq(15, i requires 0 <= i < 15 => CellFor(AllTimes()[i], date, table, p.selectedSlot, clock)),
        if p.selectedSlot.Some? then Some(p.selectedSlot.value.start) else None)
  }

  /** After a click on a bookable cell the grid, drawn again, marks that cell and every
      other cell booking the same appointment as selected, and no other cell. */
  lemma ChooseMarksCell(t: Time, p: Props, clock: Clock, c: Cell)
    requires c.Bookable?
    ensures var q := p.(selectedSlot := Some(c.slot));
      var d := CellFor(t, SelectedDate(q), SlotsByTime(SlotList(q)), q.selectedSlot, clock);
      d.Bookable? ==> (d.selected <==> d.slot.appointmentId == c.slot.appointmentId)
  {
  }

  /** On a working day the 12:00 cell is inactive even when a slot starts then. */
  lemma LunchCellInactive(p: Props, clock: Clock)
    requires !p.isLoading && p.calendarDates != [] && WorkingDay(SelectedDate(p))
    ensures Render(p, clock).cells[5] == Inactive(BreakTime)
  {
    AllTimesText(5);
  }
}

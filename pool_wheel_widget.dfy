/** The selection state of the four-wheel booking widget (`PoolWheelWidget`): the loaded
    workload slots, the index of the chosen date and the chosen hour, and everything the
    widget derives from them for its four wheels and its booking button. */
module PoolWheel {
  import opened Wrappers
  import opened Digits
  import opened StringOrder
  import Calendar
  import HourAxis
  import GestureWheel
  import Builtins

  /** One hour of one day as the workload service reports it. */
  datatype Slot = Slot(date: string, hour: int, freeLanes: int, freePlaces: int)

  /** The label of a break row on the time wheel. */
  const BreakLabel := "ПЕРЕРЫВ"
  /** The number of rows of every hour wheel: the hours 07..21. */
  const AxisLength := 15

  /* ---------- Dates ---------- */

  function DatesOf(slots: seq<Slot>): (r: seq<string>)
    ensures |r| == |slots| && forall i :: 0 <= i < |slots| ==> r[i] == slots[i].date
  {
    seq(|slots|, i requires 0 <= i < |slots| => slots[i].date)
  }

  /** `dates`: every slot date once, in the default string order. */
  function Dates(slots: seq<Slot>): seq<string>
  {
    SortedDistinct(DatesOf(slots))
  }

  /** The date list is increasing (so duplicate-free), chronological for ISO dates, and
      holds exactly the dates some slot has. */
  lemma DatesSpec(slots: seq<Slot>)
    ensures StrictlySorted(Dates(slots))
    ensures forall d :: d in Dates(slots) <==> exists s :: s in slots && s.date == d
  {
    var ds := DatesOf(slots);
    SortedDistinctSpec(ds);
    forall d
      ensures d in ds <==> exists s :: s in slots && s.date == d
    {
      if d in ds {
        var i :| 0 <= i < |ds| && ds[i] == d;
        assert slots[i] in slots;
      }
      if exists s :: s in slots && s.date == d {
        var s :| s in slots && s.date == d;
        var i :| 0 <= i < |slots| && slots[i] == s;
        assert ds[i] == d;
      }
    }
  }

  /** The `dates` memo: collect each date on first sight, then sort. */
  method UniqueDates(slots: seq<Slot>) returns (dates: seq<string>)
    ensures dates == Dates(slots)
  {
    var ds := DatesOf(slots);
    var uniq: seq<string> := [];
    for i := 0 to |slots|
      invariant uniq == Dedup(ds[..i])
    {
      assert ds[..i + 1][..i] == ds[..i];
      if slots[i].date !in uniq {
        uniq := uniq + [slots[i].date];
      }
    }
    assert ds[..|slots|] == ds;
    dates := Sort(uniq);
  }

  /** `dates[dateIndex]`: undefined outside the list. */
  function CurrentDate(dates: seq<string>, dateIndex: int): (r: Option<string>)
    ensures r.Some? <==> 0 <= dateIndex < |dates|
    ensures r.Some? ==> r.value == dates[dateIndex]
  {
    if 0 <= dateIndex < |dates| then Some(dates[dateIndex]) else None
  }

  /** The widget's `currentDate &&` and `!currentDate` tests: a missing or empty date is
      falsy. */
  predicate Truthy(cd: Option<string>)
  {
    cd.Some? && cd.value != ""
  }

  /* ---------- Hours of the current date ---------- */

  /** `s.date === currentDate`: an undefined current date matches no slot. */
  predicate OnDate(s: Slot, cd: Option<string>)
  {
    cd.Some? && s.date == cd.value
  }

  /** `dateHoursSet`: the hours that have a slot on the current date. */
  function HoursOn(slots: seq<Slot>, cd: Option<string>): set<int>
  {
    set s | s in slots && OnDate(s, cd) :: s.hour
  }

  /** The same hours in slot order, repeats included. */
  function HourList(slots: seq<Slot>, cd: Option<string>): (r: seq<int>)
    ensures forall h :: h in r <==> h in HoursOn(slots, cd)
  {
    if slots == [] then []
    else
      var rest := HourList(slots[1..], cd);
      assert slots == [slots[0]] + slots[1..];
      assert forall s :: s in slots <==> s == slots[0] || s in slots[1..];
      if OnDate(slots[0], cd) then [slots[0].hour] + rest else rest
  }

  /** The `dateHoursSet` memo: one pass over the slots, adding each matching hour. The
      `Set` is kept as what it is to `Array.from`: its elements in order of insertion. */
  method DateHoursSet(slots: seq<Slot>, cd: Option<string>) returns (hs: seq<int>)
    ensures hs == Dedup(HourList(slots, cd))
    ensures forall h :: h in hs <==> h in HoursOn(slots, cd)
  {
    hs := [];
    for i := 0 to |slots|
      invariant hs == Dedup(HourList(slots[..i], cd))
    {
      HourListSnoc(slots[..i], slots[i], cd);
      assert slots[..i + 1] == slots[..i] + [slots[i]];
      ghost var before := HourList(slots[..i], cd);
      assert HourList(slots[..i + 1], cd) ==
        if OnDate(slots[i], cd) then before + [slots[i].hour] else before;
      if OnDate(slots[i], cd) {
        assert (before + [slots[i].hour])[..|before|] == before;
        assert Dedup(before + [slots[i].hour]) ==
          if slots[i].hour in hs then hs else hs + [slots[i].hour];
      }
      if OnDate(slots[i], cd) && slots[i].hour !in hs {
        hs := hs + [slots[i].hour];
      }
    }
    assert slots[..|slots|] == slots;
  }

  lemma {:induction false} HourListSnoc(slots: seq<Slot>, s: Slot, cd: Option<string>)
    ensures HourList(slots + [s], cd) == HourList(slots, cd) + (if OnDate(s, cd) then [s.hour] else [])
    decreases |slots|
  {
    if slots == [] {
      assert [s][1..] == [];
    } else {
      assert (slots + [s])[1..] == slots[1..] + [s];
      HourListSnoc(slots[1..], s, cd);
    }
  }

  /* ---------- The nearest-hour repair ---------- */

  function Abs(x: int): nat { if x < 0 then -x else x }

  /** `a` is at least as good a replacement for `target` as `b`: nearer, or as near and
      not later. */
  predicate Closer(a: int, b: int, target: int)
  {
    Abs(a - target) < Abs(b - target) || (Abs(a - target) == Abs(b - target) && a <= b)
  }

  /** `h` is the available hour nearest to `target`, the earlier one on a tie. */
  ghost predicate IsNearest(h: int, hs: set<int>, target: int)
  {
    h in hs && forall g :: g in hs ==> Closer(h, g, target)
  }

  /** There is only one nearest hour. */
  lemma NearestUnique(a: int, b: int, hs: set<int>, target: int)
    requires IsNearest(a, hs, target) && IsNearest(b, hs, target)
    ensures a == b
  {
    assert Closer(a, b, target) && Closer(b, a, target);
  }

  /** The best replacement among a non-empty list of hours. */
  function NearestIn(xs: seq<int>, target: int): (r: int)
    requires xs != []
    ensures r in xs && forall g :: g in xs ==> Closer(r, g, target)
  {
    if |xs| == 1 then xs[0]
    else
      var r := NearestIn(xs[1..], target);
      assert xs == [xs[0]] + xs[1..];
      if Closer(xs[0], r, target) then xs[0] else r
  }

  /** The repair effect: when there is a current date and a chosen hour that the date
      does not offer, and the date offers some hour, move to the nearest one. */
  function Repair(slots: seq<Slot>, cd: Option<string>, hour: Option<int>): Option<int>
  {
    if !Truthy(cd) || hour.None? then hour
    else
      var hl := HourList(slots, cd);
      if hour.value in hl || hl == [] then hour
      else Some(NearestIn(hl, hour.value))
  }

  /** What the repair does: a missing date, a missing hour, an hour the date offers and a
      date without hours leave the hour alone; otherwise it becomes the nearest hour the
      date offers. */
  lemma RepairSpec(slots: seq<Slot>, cd: Option<string>, hour: Option<int>)
    ensures var hs := HoursOn(slots, cd);
      if Truthy(cd) && hour.Some? && hour.value !in hs && hs != {} then
        Repair(slots, cd, hour).Some? && IsNearest(Repair(slots, cd, hour).value, hs, hour.value)
      else Repair(slots, cd, hour) == hour
  {
    var hs := HoursOn(slots, cd);
    var hl := HourList(slots, cd);
    assert hl != [] ==> hl[0] in hs;
    if Truthy(cd) && hour.Some? && hour.value !in hs && hs != {} {
      var x :| x in hs;
      assert x in hl;
    }
  }

  /** Running the effect again after it has fired changes nothing. */
  lemma RepairIdempotent(slots: seq<Slot>, cd: Option<string>, hour: Option<int>)
    ensures Repair(slots, cd, Repair(slots, cd, hour)) == Repair(slots, cd, hour)
  {
    RepairSpec(slots, cd, hour);
    RepairSpec(slots, cd, Repair(slots, cd, hour));
  }

  /** The source's scan: over the available hours in ascending order, keep the first
      hour with the smallest distance. */
  method RepairScan(available: seq<int>, target: int) returns (nearest: int)
    requires available != []
    requires Increasing(available)
    ensures nearest in available && forall g :: g in available ==> Closer(nearest, g, target)
  {
    nearest := available[0];
    var minDiff := Abs(nearest - target);
    for i := 0 to |available|
      invariant nearest in available[..i] || (i == 0 && nearest == available[0])
      invariant minDiff == Abs(nearest - target)
      invariant forall k :: 0 <= k < i ==> Closer(nearest, available[k], target)
    {
      var d := Abs(available[i] - target);
      if d < minDiff {
        minDiff := d;
        nearest := available[i];
      }
    }
  }

  predicate Increasing(s: seq<int>)
  {
    forall i, j :: 0 <= i < j < |s| ==> s[i] < s[j]
  }

  /** Puts a new hour into an ascending list. */
  function InsertAscending(x: int, s: seq<int>): (r: seq<int>)
    requires Increasing(s) && x !in s
    ensures Increasing(r) && forall y :: y in r <==> y == x || y in s
  {
    if s == [] then [x]
    else if s[0] < x then
      var tail := InsertAscending(x, s[1..]);
      assert s == [s[0]] + s[1..];
      assert forall k :: 0 <= k < |tail| ==> s[0] < tail[k] by {
        forall k | 0 <= k < |tail|
          ensures s[0] < tail[k]
        {
          assert tail[k] in tail;
        }
      }
      [s[0]] + tail
    else
      [x] + s
  }

  /** `.sort((a, b) => a - b)` of the hours of a `Set`, which has no repeats. */
  function SortAscending(xs: seq<int>): (r: seq<int>)
    requires Distinct(xs)
    ensures Increasing(r) && forall y :: y in r <==> y in xs
  {
    if xs == [] then []
    else
      assert xs == [xs[0]] + xs[1..];
      InsertAscending(xs[0], SortAscending(xs[1..]))
  }

  /* ---------- Initialisation after a fetch ---------- */

  /** `loaded.map(s => s.hour).sort((a, b) => a - b)[0]`: the least hour of the slots. */
  function MinHour(slots: seq<Slot>): (r: int)
    requires slots != []
    ensures exists s :: s in slots && s.hour == r
    ensures forall s :: s in slots ==> r <= s.hour
  {
    if |slots| == 1 then slots[0].hour
    else
      var m := MinHour(slots[1..]);
      assert slots == [slots[0]] + slots[1..];
      if slots[0].hour <= m then slots[0].hour else m
  }

  /** The chosen hour after a load: the least hour on the first load of a non-empty list,
      kept on later loads, and cleared when the list is empty. */
  function InitHour(loaded: seq<Slot>, hour: Option<int>): (r: Option<int>)
    ensures loaded == [] ==> r == None
    ensures loaded != [] && hour.Some? ==> r == hour
    ensures loaded != [] && hour.None? ==>
      r.Some? && (exists s :: s in loaded && s.hour == r.value) &&
      forall s :: s in loaded ==> r.value <= s.hour
  {
    if loaded != [] then (if hour.None? then Some(MinHour(loaded)) else hour)
    else None
  }

  /* ---------- Wheel positions and index sets ---------- */

  /** `hourIndex`: the row of the chosen hour on the 07..21 axis, row 0 when there is no
      hour or it is off the axis. */
  function HourIndex(hour: Option<int>): (r: nat)
    ensures r < AxisLength
    ensures hour.Some? && HourAxis.HourStart <= hour.value <= HourAxis.HourEnd ==>
      r == hour.value - HourAxis.HourStart
    ensures (hour.None? || hour.value < HourAxis.HourStart || hour.value > HourAxis.HourEnd) ==> r == 0
  {
    if hour.None? then 0
    else
      var idx := Builtins.IndexOf(HourAxis.Hours(), hour.value);
      HourAxis.AxisIndexOf(hour.value);
      if idx >= 0 then idx else 0
  }

  /** Row `i` of an hour wheel is disabled: there is no current date, or the date has no
      slot at that row's hour. */
  predicate RowDisabled(slots: seq<Slot>, cd: Option<string>, i: int)
  {
    0 <= i < AxisLength && (!Truthy(cd) || HourAxis.HourStart + i !in HoursOn(slots, cd))
  }

  /** Row `i` of an hour wheel is the lunch break of the current date. */
  predicate RowIsBreak(cd: Option<string>, i: int)
  {
    0 <= i < AxisLength && Truthy(cd) && Calendar.IsBreakHour(cd.value, HourAxis.HourStart + i)
  }

  /** The `disabledIndices` memo. */
  method DisabledIndices(slots: seq<Slot>, cd: Option<string>) returns (r: set<int>)
    ensures forall i :: i in r <==> RowDisabled(slots, cd, i)
  {
    var hours := HourAxis.Hours();
    r := {};
    if !Truthy(cd) {
      for i := 0 to |hours|
        invariant forall k :: k in r <==> 0 <= k < i
      {
        r := r + {i};
      }
      return;
    }
    var hs := DateHoursSet(slots, cd);
    for i := 0 to |hours|
      invariant forall k :: k in r <==> 0 <= k < i && hours[k] !in hs
    {
      if hours[i] !in hs {
        r := r + {i};
      }
    }
  }

  /** The `breakIndices` memo. */
  method BreakIndices(cd: Option<string>) returns (r: set<int>)
    ensures forall i :: i in r <==> RowIsBreak(cd, i)
  {
    var hours := HourAxis.Hours();
    r := {};
    if Truthy(cd) {
      for i := 0 to |hours|
        invariant forall k :: k in r <==> 0 <= k < i && Calendar.IsBreakHour(cd.value, hours[k])
      {
        if Calendar.IsBreakHour(cd.value, hours[i]) {
          r := r + {i};
        }
      }
    }
  }

  /** The break rows are the single 12:00 row on Monday to Friday and none on any other
      day or without a date. */
  lemma BreakRows(cd: Option<string>, i: int)
    ensures RowIsBreak(cd, i) <==> Truthy(cd) && Calendar.IsWorkingDay(cd.value) && i == 5
  {
  }

  /** What the hour wheels are rendered with. */
  function HourWheel(slots: seq<Slot>, cd: Option<string>, hour: Option<int>): (p: GestureWheel.Props)
    ensures p.count == AxisLength && p.activeIndex == HourIndex(hour)
    ensures forall i :: i in p.disabled <==> RowDisabled(slots, cd, i)
  {
    GestureWheel.Props(AxisLength, HourIndex(hour),
      set i | 0 <= i < AxisLength && RowDisabled(slots, cd, i))
  }

  /* ---------- The chosen slot and the booking button ---------- */

  /** `slots[k]` is the first slot of the date and hour. */
  predicate FirstMatch(slots: seq<Slot>, date: string, hour: int, k: int)
  {
    0 <= k < |slots| && slots[k].date == date && slots[k].hour == hour &&
    forall j :: 0 <= j < k ==> !(slots[j].date == date && slots[j].hour == hour)
  }

  /** `slots.find(...)`: the first slot of the date and hour. */
  function FindSlot(slots: seq<Slot>, date: string, hour: int): (r: Option<Slot>)
    ensures r.None? <==> forall s :: s in slots ==> !(s.date == date && s.hour == hour)
    ensures r.Some? ==> r.value.date == date && r.value.hour == hour
    ensures r.Some? ==> exists k :: FirstMatch(slots, date, hour, k) && slots[k] == r.value
  {
    if slots == [] then None
    else if slots[0].date == date && slots[0].hour == hour then Some(slots[0])
    else
      var r := FindSlot(slots[1..], date, hour);
      assert slots == [slots[0]] + slots[1..];
      assert r.Some? ==> exists k :: FirstMatch(slots, date, hour, k) && slots[k] == r.value by {
        if r.Some? {
          var k :| FirstMatch(slots[1..], date, hour, k) && slots[1..][k] == r.value;
          assert forall j :: 1 <= j < k + 1 ==> slots[j] == slots[1..][j - 1];
          assert FirstMatch(slots, date, hour, k + 1);
        }
      }
      r
  }

  /** `activeSlot` */
  function ActiveSlot(slots: seq<Slot>, cd: Option<string>, hour: Option<int>): Option<Slot>
  {
    if !Truthy(cd) || hour.None? then None else FindSlot(slots, cd.value, hour.value)
  }

  /** `selectedIsBreak` */
  predicate SelectedIsBreak(cd: Option<string>, hour: Option<int>)
  {
    Truthy(cd) && hour.Some? && Calendar.IsBreakHour(cd.value, hour.value)
  }

  /** `canBook = !!activeSlot && !selectedIsBreak` */
  predicate CanBook(slots: seq<Slot>, cd: Option<string>, hour: Option<int>)
  {
    ActiveSlot(slots, cd, hour).Some? && !SelectedIsBreak(cd, hour)
  }

  /** Booking is open exactly when the current date has a slot at the chosen hour and
      that hour is not the date's break. */
  lemma CanBookIff(slots: seq<Slot>, cd: Option<string>, hour: Option<int>)
    ensures CanBook(slots, cd, hour) <==>
      Truthy(cd) && hour.Some? && hour.value in HoursOn(slots, cd) &&
      !Calendar.IsBreakHour(cd.value, hour.value)
  {
    if Truthy(cd) && hour.Some? {
      if hour.value in HoursOn(slots, cd) {
        var s :| s in slots && OnDate(s, cd) && s.hour == hour.value;
      }
    }
  }

  /* ---------- The labels of the three hour wheels ---------- */

  /** `timeItems` */
  function TimeItems(cd: Option<string>): (r: seq<string>)
    ensures |r| == AxisLength
  {
    seq(AxisLength, i requires 0 <= i < AxisLength =>
      if RowIsBreak(cd, i) then BreakLabel else Pad2(HourAxis.HourStart + i) + ":00")
  }

  /** A row's label is the break label exactly on break rows, and otherwise the row's hour
      in two digits followed by ":00". */
  lemma TimeItemsSpec(cd: Option<string>, i: int)
    requires 0 <= i < AxisLength
    ensures TimeItems(cd)[i] == BreakLabel <==> RowIsBreak(cd, i)
    ensures !RowIsBreak(cd, i) ==>
      |TimeItems(cd)[i]| == 5 && AllDigits(TimeItems(cd)[i][..2]) &&
      ValueOf(TimeItems(cd)[i][..2]) == HourAxis.HourStart + i && TimeItems(cd)[i][2..] == ":00"
  {
    var h := HourAxis.HourStart + i;
    Pad2Properties(h);
    var text := Pad2(h) + ":00";
    assert text[..2] == Pad2(h) && text[2..] == ":00";
    assert text[0] != BreakLabel[0];
  }

  /** `freeLanesItems` */
  function FreeLanesItems(slots: seq<Slot>, cd: Option<string>): (r: seq<int>)
    ensures |r| == AxisLength
  {
    seq(AxisLength, i requires 0 <= i < AxisLength =>
      if !Truthy(cd) || RowIsBreak(cd, i) then 0
      else match FindSlot(slots, cd.value, HourAxis.HourStart + i)
        case Some(s) => s.freeLanes
        case None => 0)
  }

  /** `freePlacesItems` */
  function FreePlacesItems(slots: seq<Slot>, cd: Option<string>): (r: seq<int>)
    ensures |r| == AxisLength
  {
    seq(AxisLength, i requires 0 <= i < AxisLength =>
      if !Truthy(cd) || RowIsBreak(cd, i) then 0
      else match FindSlot(slots, cd.value, HourAxis.HourStart + i)
        case Some(s) => s.freePlaces
        case None => 0)
  }

  /** The lane and place wheels show zero on break rows and on rows without a slot, and at
      the chosen row of a bookable hour they show the chosen slot's own numbers, as the
      summary under the wheels does. */
  lemma CountsSpec(slots: seq<Slot>, cd: Option<string>, hour: Option<int>, i: int)
    requires 0 <= i < AxisLength
    ensures RowIsBreak(cd, i) || RowDisabled(slots, cd, i) ==>
      FreeLanesItems(slots, cd)[i] == 0 && FreePlacesItems(slots, cd)[i] == 0
    ensures (CanBook(slots, cd, hour) && i == HourIndex(hour) &&
             HourAxis.HourStart <= hour.value <= HourAxis.HourEnd) ==>
      FreeLanesItems(slots, cd)[i] == ActiveSlot(slots, cd, hour).value.freeLanes &&
      FreePlacesItems(slots, cd)[i] == ActiveSlot(slots, cd, hour).value.freePlaces
  {
    if Truthy(cd) && HourAxis.HourStart + i !in HoursOn(slots, cd) {
      var h := HourAxis.HourStart + i;
      assert FindSlot(slots, cd.value, h).None? by {
        forall s | s in slots
          ensures !(s.date == cd.value && s.hour == h)
        {
          if s.date == cd.value && s.hour == h {
            assert OnDate(s, cd);
          }
        }
      }
    }
  }

  /* ---------- The widget's state ---------- */

  /** The widget's state hooks: the loaded slots, the date wheel's index and the chosen
      hour. Every handler ends by running the repair effect, as React does after the
      state change. */
  class Widget {
    var slots: seq<Slot>
    var dateIndex: int
    var selectedHour: Option<int>

    /** The current date of the state. */
    function Current(): Option<string>
      reads this
    {
      CurrentDate(Dates(slots), dateIndex)
    }

    constructor ()
      ensures slots == [] && dateIndex == 0 && selectedHour == None
    {
      slots := [];
      dateIndex := 0;
      selectedHour := None;
    }

    /** The repair effect. */
    method ApplyRepair()
      modifies this
      ensures slots == old(slots) && dateIndex == old(dateIndex)
      ensures selectedHour == Repair(slots, Current(), old(selectedHour))
    {
      var dates := UniqueDates(slots);
      var cd := if 0 <= dateIndex < |dates| then Some(dates[dateIndex]) else None;
      assert cd == Current();
      if !Truthy(cd) || selectedHour == None {
        return;
      }
      var target := selectedHour.value;
      var hs := DateHoursSet(slots, cd);
      if target in hs {
        return;
      }
      var available := SortAscending(hs);
      var hl := HourList(slots, cd);
      assert hl != [] ==> hl[0] in hl && hl[0] in hs && hl[0] in available;
      if available == [] {
        return;
      }
      var nearest := RepairScan(available, target);
      RepairSpec(slots, cd, selectedHour);
      assert IsNearest(nearest, HoursOn(slots, cd), target);
      NearestUnique(nearest, Repair(slots, cd, selectedHour).value, HoursOn(slots, cd), target);
      selectedHour := Some(nearest);
    }

    /** The end of `fetchData`: store the slots, initialise the hour, then repair. */
    method Load(loaded: seq<Slot>)
      modifies this
      ensures slots == loaded && dateIndex == old(dateIndex)
      ensures selectedHour == Repair(loaded, Current(), InitHour(loaded, old(selectedHour)))
    {
      slots := loaded;
      if |loaded| > 0 {
        if selectedHour == None {
          selectedHour := Some(MinHour(loaded));
        }
      } else {
        if selectedHour != None {
          selectedHour := None;
        }
      }
      ApplyRepair();
    }

    /** `handleDateChange`: move the date wheel, then repair. */
    method HandleDateChange(idx: int)
      modifies this
      ensures slots == old(slots) && dateIndex == idx
      ensures selectedHour == Repair(slots, Current(), old(selectedHour))
    {
      dateIndex := idx;
      ApplyRepair();
    }

    /** `handleHourChange`: `allHours[idx]`, undefined off the axis, then repair. */
    method HandleHourChange(idx: int)
      modifies this
      ensures slots == old(slots) && dateIndex == old(dateIndex)
      ensures selectedHour == Repair(slots, Current(),
        if 0 <= idx < AxisLength then Some(HourAxis.Hours()[idx]) else None)
    {
      var hours := HourAxis.Hours();
      selectedHour := if 0 <= idx < |hours| then Some(hours[idx]) else None;
      ApplyRepair();
    }
  }

  /** A step of an hour wheel that lands on an enabled row selects an hour the current
      date offers, so the repair leaves it alone. */
  lemma HourStepNeedsNoRepair(slots: seq<Slot>, cd: Option<string>, hour: Option<int>, delta: int)
    requires Truthy(cd)
    requires GestureWheel.ShiftFixed(HourWheel(slots, cd, hour), delta).Some?
    requires GestureWheel.ShiftFixed(HourWheel(slots, cd, hour), delta).value != HourIndex(hour)
    ensures var i := GestureWheel.ShiftFixed(HourWheel(slots, cd, hour), delta).value;
      0 <= i < AxisLength &&
      Repair(slots, cd, Some(HourAxis.Hours()[i])) == Some(HourAxis.Hours()[i])
  {
    var p := HourWheel(slots, cd, hour);
    GestureWheel.ShiftFixedSpec(p, delta);
    var i := GestureWheel.ShiftFixed(p, delta).value;
    assert !RowDisabled(slots, cd, i);
    RepairSpec(slots, cd, Some(HourAxis.Hours()[i]));
  }
}

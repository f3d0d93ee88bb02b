/** The data behind the workload bar chart (`PoolWorkload`): the list of dates, the table
    of free lanes per date and hour, the value and the lit segments of each hour's bar,
    the free-places figure of the "now" card and the chart's dimensions. */
module PoolWorkload {
  import opened Wrappers
  import opened StringOrder
  import opened Builtins
  import Calendar
  import HourAxis

  const BarWidth := 60
  const BarGap := 11
  const LeftPadding := 100
  const TopPadding := 28
  const TotalLanes := 10
  const LaneCapacity := 12
  const SegmentHeight := 12
  const SegmentGap := 3
  /** The room under the bars for the hour labels. */
  const BottomRoom := 60
  /** How far below the bars the hour labels sit. */
  const HourLabelDrop := 46

  /** The fields of a workload slot that the chart reads. */
  datatype Slot = Slot(date: string, hour: int, freeLanes: int)

  /** The `currentNow` record: the occupancy now (or null) and where it came from. */
  datatype CurrentNow = CurrentNow(current: Option<int>, source: string)

  /** `freeMatrix`: date -> hour -> free lanes. */
  type FreeMatrix = map<string, map<int, int>>

  /* ---------- Dates ---------- */

  /** The same projection as `PoolWheel.DatesOf`, over this chart's own `Slot` type. */
  function DatesOf(slots: seq<Slot>): (r: seq<string>)
    ensures |r| == |slots| && forall i :: 0 <= i < |slots| ==> r[i] == slots[i].date
  {
    seq(|slots|, i requires 0 <= i < |slots| => slots[i].date)
  }

  /** The `dates` memo: add every date to a `Set` (which keeps the order of first
      insertion), take it as an array and sort it. The result is increasing and holds
      exactly the slot dates. */
  method CollectDates(slots: seq<Slot>) returns (dates: seq<string>)
    ensures dates == SortedDistinct(DatesOf(slots))
    ensures StrictlySorted(dates)
    ensures forall d :: d in dates <==> exists s :: s in slots && s.date == d
  {
    var ds := DatesOf(slots);
    var inSet: seq<string> := [];
    for i := 0 to |slots|
      invariant inSet == Dedup(ds[..i])
    {
      assert ds[..i + 1][..i] == ds[..i];
      if slots[i].date !in inSet {
        inSet := inSet + [slots[i].date];
      }
    }
    assert ds[..|slots|] == ds;
    dates := Sort(inSet);
    SortedDistinctSpec(ds);
    forall d
      ensures d in dates <==> exists s :: s in slots && s.date == d
    {
      if d in ds {
        var i :| 0 <= i < |ds| && ds[i] == d;
        assert slots[i] in slots;
      }
      if exists s :: s in slots && s.date == d {
        var s :| s in slots && s.date == d;
        var i :| 0 <= i < |slots| && slots[i] == s;
        assert ds[i] == d;
      }
    }
  }

  /** The date `meta.serverNowDate` selects: when the server's date is present and the
      list has it, its position; otherwise the selection stays. */
  function SyncedIndex(serverNowDate: Option<string>, dates: seq<string>, selectedIdx: int): (r: int)
    ensures serverNowDate.Some? && serverNowDate.value != "" && serverNowDate.value in dates ==>
      0 <= r < |dates| && dates[r] == serverNowDate.value && serverNowDate.value !in dates[..r]
    ensures !(serverNowDate.Some? && serverNowDate.value != "" && serverNowDate.value in dates) ==>
      r == selectedIdx
  {
    if serverNowDate.Some? && serverNowDate.value != "" && |dates| > 0 then
      var idx := IndexOf(dates, serverNowDate.value);
      if idx >= 0 then idx else selectedIdx
    else selectedIdx
  }

  /** In an increasing date list the server's date is found at its only position. */
  lemma SyncedIndexUnique(serverNowDate: string, dates: seq<string>, selectedIdx: int, k: int)
    requires StrictlySorted(dates) && serverNowDate != ""
    requires 0 <= k < |dates| && dates[k] == serverNowDate
    ensures SyncedIndex(Some(serverNowDate), dates, selectedIdx) == k
  {
    forall i, j | 0 <= i < j < |dates|
      ensures dates[i] != dates[j]
    {
      LessIrreflexive(dates[i]);
    }
    var r := SyncedIndex(Some(serverNowDate), dates, selectedIdx);
    assert dates[r] == dates[k];
  }

  /* ---------- The free-lanes table ---------- */

  /** `freeMatrix[date]?.[hour]` */
  function Lookup(m: FreeMatrix, date: string, hour: int): Option<int>
  {
    if date in m && hour in m[date] then Some(m[date][hour]) else None
  }

  /** The free lanes of the last slot of the date and hour, if there is one. */
  function LastFreeLanes(slots: seq<Slot>, date: string, hour: int): Option<int>
  {
    if slots == [] then None
    else
      var s := slots[|slots| - 1];
      if s.date == date && s.hour == hour then Some(s.freeLanes)
      else LastFreeLanes(slots[..|slots| - 1], date, hour)
  }

  lemma LastFreeLanesSnoc(slots: seq<Slot>, s: Slot, date: string, hour: int)
    ensures LastFreeLanes(slots + [s], date, hour) ==
      if s.date == date && s.hour == hour then Some(s.freeLanes) else LastFreeLanes(slots, date, hour)
  {
    assert (slots + [s])[..|slots|] == slots;
  }

  /** A slot with no later slot of the same date and hour is the one whose lanes the
      table keeps. */
  lemma {:induction false} LastSlotWins(slots: seq<Slot>, k: int)
    requires 0 <= k < |slots|
    requires forall j :: k < j < |slots| ==>
      !(slots[j].date == slots[k].date && slots[j].hour == slots[k].hour)
    ensures LastFreeLanes(slots, slots[k].date, slots[k].hour) == Some(slots[k].freeLanes)
    decreases |slots|
  {
    if k < |slots| - 1 {
      var init := slots[..|slots| - 1];
      assert init[k] == slots[k];
      LastSlotWins(init, k);
    }
  }

  /** A date and hour that no slot has gets no entry. */
  lemma {:induction false} NoSlotNoEntry(slots: seq<Slot>, date: string, hour: int)
    requires forall s :: s in slots ==> !(s.date == date && s.hour == hour)
    ensures LastFreeLanes(slots, date, hour) == None
    decreases |slots|
  {
    if slots != [] {
      var init := slots[..|slots| - 1];
      assert forall s :: s in init ==> s in slots;
      NoSlotNoEntry(init, date, hour);
    }
  }

  /** The `freeMatrix` memo: a row per date, and in it each slot's lanes written over
      whatever an earlier slot of the same hour left. */
  method BuildFreeMatrix(slots: seq<Slot>) returns (m: FreeMatrix)
    ensures forall d :: d in m <==> exists s :: s in slots && s.date == d
    ensures forall d, h :: Lookup(m, d, h) == LastFreeLanes(slots, d, h)
  {
    m := map[];
    for i := 0 to |slots|
      invariant forall d :: d in m <==> exists s :: s in slots[..i] && s.date == d
      invariant forall d, h :: Lookup(m, d, h) == LastFreeLanes(slots[..i], d, h)
    {
      var s := slots[i];
      ghost var before := m;
      assert slots[..i + 1] == slots[..i] + [s];
      assert forall x :: x in slots[..i + 1] <==> x in slots[..i] || x == s;
      if s.date !in m {
        m := m[s.date := map[]];
      }
      m := m[s.date := m[s.date][s.hour := s.freeLanes]];
      forall d, h
        ensures Lookup(m, d, h) == LastFreeLanes(slots[..i + 1], d, h)
      {
        LastFreeLanesSnoc(slots[..i], s, d, h);
        assert Lookup(m, d, h) == if d == s.date && h == s.hour then Some(s.freeLanes) else Lookup(before, d, h);
      }
    }
    assert slots[..|slots|] == slots;
  }

  /* ---------- One hour's bar ---------- */

  /** The value shown for an hour of the selected date: the table entry or 0, and 0 on the
      break hour. An undefined selected date is used as a key as the text "undefined",
      which is no date and so has no break. */
  function HourValue(m: FreeMatrix, date: Option<string>, hour: int): int
  {
    var key := date.GetOr("undefined");
    if Calendar.IsBreakHour(key, hour) then 0
    else Lookup(m, key, hour).GetOr(0)
  }

  /** An hour's value is the lanes of its last slot, 0 without one, and 0 on a break. */
  lemma HourValueSpec(slots: seq<Slot>, m: FreeMatrix, date: string, hour: int)
    requires forall d, h :: Lookup(m, d, h) == LastFreeLanes(slots, d, h)
    ensures Calendar.IsBreakHour(date, hour) ==> HourValue(m, Some(date), hour) == 0
    ensures !Calendar.IsBreakHour(date, hour) ==>
      HourValue(m, Some(date), hour) == LastFreeLanes(slots, date, hour).GetOr(0)
    ensures HourValue(m, None, hour) == LastFreeLanes(slots, "undefined", hour).GetOr(0)
  {
  }

  /** Segment `segIdx` (0 at the top) of a bar with value `val` is lit: never on a break,
      otherwise for the lowest `val` segments. */
  predicate SegmentLit(val: int, segIdx: int, isBreak: bool)
  {
    !isBreak && segIdx >= TotalLanes - val
  }

  /** The number of lit segments among the top `n`. */
  function LitCount(val: int, isBreak: bool, n: nat): nat
  {
    if n == 0 then 0 else LitCount(val, isBreak, n - 1) + (if SegmentLit(val, n - 1, isBreak) then 1 else 0)
  }

  lemma {:induction false} LitCountPrefix(val: int, isBreak: bool, n: nat)
    ensures LitCount(val, isBreak, n) == if isBreak then 0 else Max(0, n - Max(0, TotalLanes - val))
  {
    if n > 0 {
      LitCountPrefix(val, isBreak, n - 1);
    }
  }

  /** A bar lights exactly as many of its ten segments as its value says, cut to 0..10,
      and none on a break. */
  lemma LitSegments(val: int, isBreak: bool)
    ensures LitCount(val, isBreak, TotalLanes) == if isBreak then 0 else Max(0, Min(val, TotalLanes))
  {
    LitCountPrefix(val, isBreak, TotalLanes);
  }

  /** The lit segments are the bottom ones: below a lit segment every segment is lit. */
  lemma LitFromBottom(val: int, isBreak: bool, i: int, j: int)
    requires SegmentLit(val, i, isBreak) && i <= j
    ensures SegmentLit(val, j, isBreak)
  {
  }

  /* ---------- The "now" card ---------- */

  function TotalPlaces(): int { TotalLanes * LaneCapacity }

  /** `freePlaces`: "—" (None) without an occupancy figure, otherwise the places left,
      never negative. */
  function FreePlaces(current: Option<int>): (r: Option<int>)
    ensures r.None? <==> current.None?
    ensures r.Some? ==> r.value >= 0
    ensures r.Some? && current.value <= TotalPlaces() ==> r.value + current.value == TotalPlaces()
    ensures r.Some? && current.value > TotalPlaces() ==> r.value == 0
  {
    match current
    case None => None
    case Some(c) => Some(Max(0, TotalPlaces() - c))
  }

  /** The places the pop-up shows for a bar: twelve per free lane, so at most the pool's
      120 places for a value of at most ten lanes, and all of them when every lane is free. */
  function PopupPlaces(value: int): (r: int)
    ensures r == value * LaneCapacity
    ensures 0 <= value <= TotalLanes ==> 0 <= r <= TotalPlaces()
    ensures value == TotalLanes <==> r == TotalPlaces()
  {
    value * LaneCapacity
  }

  /** The sources of `currentNow` that get a note under the free places. */
  const NotedSources: set<string> := {"previousHour", "none", "error"}

  /** `sourceNote`: a note for the three non-live sources, nothing otherwise. */
  function SourceNote(currentNow: Option<CurrentNow>): (r: string)
    ensures r != "" <==> currentNow.Some? && currentNow.value.source in NotedSources
    ensures currentNow.Some? && currentNow.value.source == "previousHour" ==> r == "данные предыдущего часа"
    ensures currentNow.Some? && currentNow.value.source == "none" ==> r == "нет данных"
    ensures currentNow.Some? && currentNow.value.source == "error" ==> r == "ошибка"
  {
    match currentNow
    case None => ""
    case Some(c) =>
      if c.source == "previousHour" then "данные предыдущего часа"
      else if c.source == "none" then "нет данных"
      else if c.source == "error" then "ошибка"
      else ""
  }

  /* ---------- Geometry ---------- */

  /** The left edge of the bar of column `hourIdx`. */
  function BarX(hourIdx: int): int
  {
    LeftPadding + hourIdx * (BarWidth + BarGap)
  }

  function ChartWidth(): int
  {
    LeftPadding * 2 + |HourAxis.Hours()| * (BarWidth + BarGap) - BarGap
  }

  function ChartHeight(): int
  {
    TopPadding + (SegmentHeight + SegmentGap) * TotalLanes + BottomRoom
  }

  /** Every bar lies between the two paddings, the last one ending exactly at the right
      padding, and each hour label is centred over its own bar. */
  lemma BarsFitWidth(hourIdx: int)
    requires 0 <= hourIdx < |HourAxis.Hours()|
    ensures LeftPadding <= BarX(hourIdx)
    ensures BarX(hourIdx) + BarWidth <= ChartWidth() - LeftPadding
    ensures hourIdx == |HourAxis.Hours()| - 1 ==> BarX(hourIdx) + BarWidth == ChartWidth() - LeftPadding
    ensures LeftPadding + (HourAxis.Hours()[hourIdx] - HourAxis.HourStart) * (BarWidth + BarGap) == BarX(hourIdx)
  {
  }

  /** The segments and the hour labels fit in the chart's height. */
  lemma SegmentsFitHeight(segIdx: int)
    requires 0 <= segIdx < TotalLanes
    ensures TopPadding <= TopPadding + segIdx * (SegmentHeight + SegmentGap)
    ensures TopPadding + segIdx * (SegmentHeight + SegmentGap) + SegmentHeight
      < TopPadding + (SegmentHeight + SegmentGap) * TotalLanes + HourLabelDrop
    ensures TopPadding + (SegmentHeight + SegmentGap) * TotalLanes + HourLabelDrop < ChartHeight()
  {
  }

  /* ---------- The chart's state ---------- */

  /** The chart's state hooks: the slots, the `currentNow` record and the server date of
      the last response, and the index of the selected date chip. */
  class Chart {
    var slots: seq<Slot>
    var currentNow: Option<CurrentNow>
    var serverNowDate: Option<string>
    var selectedIdx: int

    constructor ()
      ensures slots == [] && currentNow == None && serverNowDate == None && selectedIdx == 0
    {
      slots := [];
      currentNow := None;
      serverNowDate := None;
      selectedIdx := 0;
    }

    /** `currentNow?.current ?? null` */
    function Current(): Option<int>
      reads this
    {
      match currentNow
      case None => None
      case Some(c) => c.current
    }

    /** A response is stored (its slots, its `currentNow` record and its server date) and
        the server-date effect runs on the new date list. The "now" card then shows the
        free places and the note of the new record. */
    method Receive(loaded: seq<Slot>, now: Option<CurrentNow>, nowDate: Option<string>)
      modifies this
      ensures slots == loaded && currentNow == now && serverNowDate == nowDate
      ensures selectedIdx == SyncedIndex(nowDate, SortedDistinct(DatesOf(loaded)), old(selectedIdx))
      ensures FreePlaces(Current()).None? <==> now.None? || now.value.current.None?
    {
      slots := loaded;
      currentNow := now;
      serverNowDate := nowDate;
      var dates := CollectDates(loaded);
      selectedIdx := SyncedIndex(nowDate, dates, selectedIdx);
    }

    /** A click on date chip `idx`. */
    method SelectChip(idx: int)
      modifies this
      ensures selectedIdx == idx && slots == old(slots) && currentNow == old(currentNow)
      ensures serverNowDate == old(serverNowDate)
    {
      selectedIdx := idx;
    }
  }
}

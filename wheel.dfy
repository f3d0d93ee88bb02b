/** The `Wheel` control of the four-wheel selector: it turns mouse-wheel steps, touch
    drags and clicks into the index it hands to its `onChange` callback. The control's
    rendering is reduced to the number of items, the active index and the set of disabled
    indices; the break styling and the item labels do not affect what it emits. */
module GestureWheel {
  import opened Wrappers
  import opened Builtins

  /** Wheel events closer together than this (in milliseconds) are dropped. */
  const WheelCooldownMs := 70
  /** A touch has to travel further than this (in pixels) to count as one step. */
  const TouchThresholdPx := 26
  /** Where the active item sits in the window: the strip is translated by this many
      pixels minus the active item's top. */
  const WindowLinePx := 120

  /** What a wheel is rendered with. A missing `disabledIndices` behaves as the empty set. */
  datatype Props = Props(count: nat, activeIndex: int, disabled: set<int>)

  /** What the source's `shift` does: call `onChange` with an index, return without
      calling it, or never return. */
  datatype Outcome = Calls(index: int) | Returns | Hangs

  /** Where the disabled-skip walk ends: on an index, or pinned on a disabled boundary
      index that it can never leave. */
  datatype Walk = StopAt(index: int) | Stuck

  /** `clamp(i) = Math.max(0, Math.min(items.length - 1, i))` */
  function Clamp(count: nat, i: int): (r: int)
    ensures 0 <= r && (count > 0 ==> r < count)
    ensures 0 <= i < count ==> r == i
    ensures i < 0 || count == 0 ==> r == 0
    ensures count > 0 && i >= count ==> r == count - 1
  {
    Max(0, Min(count - 1, i))
  }

  /** The direction the walk moves in: `delta > 0 ? 1 : -1`. */
  function Step(delta: int): (s: int)
    ensures s == 1 || s == -1
    ensures s == 1 <==> delta > 0
  {
    if delta > 0 then 1 else -1
  }

  /** The loop keeps walking past `i`: it is disabled and not the active index. */
  predicate Blocked(p: Props, i: int)
  {
    i in p.disabled && i != p.activeIndex
  }

  /** `j` is an index of the list at or beyond `from` in the direction `step`. */
  predicate Ahead(count: nat, from: int, j: int, step: int)
  {
    0 <= j < count && (if step == 1 then from <= j else j <= from)
  }

  /** `j` comes strictly before `i` in the direction `step`. */
  predicate Earlier(j: int, i: int, step: int)
  {
    if step == 1 then j < i else i < j
  }

  /** `next` is the last index in the direction `step`, where `clamp` pins the walk. */
  predicate AtBoundary(count: nat, next: int, step: int)
  {
    if step == 1 then next == count - 1 else next == 0
  }

  /** The `while (disabledIndices.has(next) && next !== activeIndex)` walk from `next`. */
  function WalkFrom(p: Props, next: int, step: int): Walk
    requires 0 <= next < p.count && (step == 1 || step == -1)
    decreases if step == 1 then p.count - 1 - next else next
  {
    if !Blocked(p, next) then StopAt(next)
    else if AtBoundary(p.count, next, step) then Stuck
    else WalkFrom(p, next + step, step)
  }

  /** The walk stops on the first index ahead that is not blocked, and it is stuck
      exactly when every index from its start to the boundary is blocked. */
  lemma {:induction false} WalkSpec(p: Props, next: int, step: int)
    requires 0 <= next < p.count && (step == 1 || step == -1)
    ensures WalkFrom(p, next, step) == Stuck <==>
      forall j :: Ahead(p.count, next, j, step) ==> Blocked(p, j)
    ensures WalkFrom(p, next, step).StopAt? ==>
      var i := WalkFrom(p, next, step).index;
      Ahead(p.count, next, i, step) && !Blocked(p, i) &&
      forall j :: Ahead(p.count, next, j, step) && Earlier(j, i, step) ==> Blocked(p, j)
    decreases if step == 1 then p.count - 1 - next else next
  {
    if !Blocked(p, next) {
      assert Ahead(p.count, next, next, step);
    } else if AtBoundary(p.count, next, step) {
      forall j | Ahead(p.count, next, j, step)
        ensures Blocked(p, j)
      {
        assert j == next;
      }
    } else {
      WalkSpec(p, next + step, step);
      forall j | Ahead(p.count, next, j, step)
        ensures j == next || Ahead(p.count, next + step, j, step)
      {
      }
    }
  }

  /** The first index `shift` looks at. */
  function Start(p: Props, delta: int): (r: int)
    requires p.count > 0
    ensures 0 <= r < p.count
  {
    Clamp(p.count, p.activeIndex + delta)
  }

  /** `shift(delta)` as written, including its failure to return. */
  function ShiftAsWritten(p: Props, delta: int): Outcome
  {
    if p.count == 0 then Returns
    else if |p.disabled| == 0 then Calls(Start(p, delta))
    else
      match WalkFrom(p, Start(p, delta), Step(delta))
      case StopAt(i) => Calls(i)
      case Stuck => Hangs
  }

  /** `shift(delta)` as evidently intended: when no index can be reached in the
      direction of the step, nothing is emitted. */
  function ShiftFixed(p: Props, delta: int): Option<int>
  {
    if p.count == 0 then None
    else if |p.disabled| == 0 then Some(Start(p, delta))
    else
      match WalkFrom(p, Start(p, delta), Step(delta))
      case StopAt(i) => Some(i)
      case Stuck => None
  }

  /** The source's `shift` never returns exactly when the list is non-empty and every
      index from the first target to the boundary is disabled and not the active one. */
  lemma ShiftHangsIff(p: Props, delta: int)
    ensures ShiftAsWritten(p, delta) == Hangs <==>
      p.count > 0 &&
      forall j :: Ahead(p.count, Start(p, delta), j, Step(delta)) ==> Blocked(p, j)
  {
    if p.count > 0 {
      var s := Start(p, delta);
      WalkSpec(p, s, Step(delta));
      assert Ahead(p.count, s, s, Step(delta));
    }
  }

  /** Wherever the source's `shift` returns, the corrected one emits the same. */
  lemma ShiftFixedAgrees(p: Props, delta: int)
    requires ShiftAsWritten(p, delta) != Hangs
    ensures ShiftAsWritten(p, delta) == Returns <==> ShiftFixed(p, delta) == None
    ensures forall i :: ShiftAsWritten(p, delta) == Calls(i) <==> ShiftFixed(p, delta) == Some(i)
  {
  }

  /** What the corrected `shift` emits: nothing on an empty list; nothing when every index
      ahead is blocked; otherwise the first index ahead, in range, that is enabled or is
      the active index itself. */
  lemma ShiftFixedSpec(p: Props, delta: int)
    ensures p.count == 0 ==> ShiftFixed(p, delta) == None
    ensures p.count > 0 ==>
      (ShiftFixed(p, delta) == None <==>
       forall j :: Ahead(p.count, Start(p, delta), j, Step(delta)) ==> Blocked(p, j))
    ensures ShiftFixed(p, delta).Some? ==>
      var i := ShiftFixed(p, delta).value;
      p.count > 0 && Ahead(p.count, Start(p, delta), i, Step(delta)) && !Blocked(p, i) &&
      forall j :: Ahead(p.count, Start(p, delta), j, Step(delta)) && Earlier(j, i, Step(delta)) ==>
        Blocked(p, j)
  {
    if p.count > 0 {
      var s := Start(p, delta);
      WalkSpec(p, s, Step(delta));
      assert Ahead(p.count, s, s, Step(delta));
      if |p.disabled| == 0 {
        assert !Blocked(p, s);
      }
    }
  }

  /** The first hanging input of the wheel widget: on the hour wheel (15 hours) with 20:00
      active and 21:00 unavailable, one step down never returns. */
  lemma HourWheelHangs()
    ensures ShiftAsWritten(Props(15, 13, {14}), 1) == Hangs
    ensures ShiftFixed(Props(15, 13, {14}), 1) == None
  {
    var p := Props(15, 13, {14});
    assert Start(p, 1) == 14;
    assert WalkFrom(p, 14, 1) == Stuck;
  }

  /** `shift(delta)` as a loop. The loop of the source is kept; it leaves, emitting
      nothing, once it is pinned on a blocked boundary index. */
  method Shift(p: Props, delta: int) returns (r: Option<int>)
    ensures r == ShiftFixed(p, delta)
  {
    if p.count == 0 {
      return None;
    }
    var step := Step(delta);
    var next := Clamp(p.count, p.activeIndex + delta);
    if |p.disabled| > 0 {
      while next in p.disabled && next != p.activeIndex
        invariant 0 <= next < p.count
        invariant WalkFrom(p, next, step) == WalkFrom(p, Start(p, delta), step)
        decreases if step == 1 then p.count - 1 - next else next
      {
        if AtBoundary(p.count, next, step) {
          return None;
        }
        next := Clamp(p.count, next + step);
      }
    }
    return Some(next);
  }

  /** `onClick={() => { if (!disabled) onChange(idx); }}` */
  function Click(p: Props, idx: int): (r: Option<int>)
    ensures r == None <==> idx in p.disabled
    ensures r.Some? ==> r.value == idx
  {
    if idx in p.disabled then None else Some(idx)
  }

  /** The strip's `translateY`: it puts the top of the active item on the window line. */
  function TranslateY(activeIndex: int, itemHeight: int): (r: int)
    ensures activeIndex * itemHeight + r == WindowLinePx
  {
    WindowLinePx - activeIndex * itemHeight
  }

  /** One step down moves the strip up by one item. */
  lemma TranslateStep(activeIndex: int, itemHeight: int)
    ensures TranslateY(activeIndex + 1, itemHeight) == TranslateY(activeIndex, itemHeight) - itemHeight
  {
  }

  /** The event state of one wheel: the `lastWheelTs` and `startYRef` refs. Each handler
      returns what it passes to `onChange`, if anything. */
  class Wheel {
    var lastWheelTs: int
    var startY: Option<int>

    constructor ()
      ensures lastWheelTs == 0 && startY == None
    {
      lastWheelTs := 0;
      startY := None;
    }

    /** A mouse-wheel event at time `now`: dropped within the cool-down, otherwise
        remembered and turned into one step (down for a positive `deltaY`). */
    method OnWheel(p: Props, now: int, deltaY: int) returns (r: Option<int>)
      modifies this
      ensures now - old(lastWheelTs) < WheelCooldownMs ==> r == None && lastWheelTs == old(lastWheelTs)
      ensures now - old(lastWheelTs) >= WheelCooldownMs ==>
        lastWheelTs == now && r == ShiftFixed(p, if deltaY > 0 then 1 else -1)
      ensures startY == old(startY)
    {
      if now - lastWheelTs < WheelCooldownMs {
        return None;
      }
      lastWheelTs := now;
      r := Shift(p, if deltaY > 0 then 1 else -1);
    }

    /** A touch start remembers the first touch's `clientY`; an event without touches
        changes nothing. */
    method OnTouchStart(touches: seq<int>)
      modifies this
      ensures startY == if touches == [] then old(startY) else Some(touches[0])
      ensures lastWheelTs == old(lastWheelTs)
    {
      if touches == [] {
        return;
      }
      startY := Some(touches[0]);
    }

    /** A touch move to `y`: without a touch in progress, or within the threshold,
        nothing happens; beyond it one step is taken (down when the finger moved up) and
        the drag starts afresh from `y`. */
    method OnTouchMove(p: Props, y: int) returns (r: Option<int>)
      modifies this
      ensures old(startY) == None ==> r == None && startY == None
      ensures old(startY).Some? ==>
        var dy := y - old(startY).value;
        if -TouchThresholdPx <= dy <= TouchThresholdPx then r == None && startY == old(startY)
        else r == ShiftFixed(p, if dy < 0 then 1 else -1) && startY == Some(y)
      ensures lastWheelTs == old(lastWheelTs)
    {
      if startY == None {
        return None;
      }
      var dy := y - startY.value;
      if dy > TouchThresholdPx || dy < -TouchThresholdPx {
        r := Shift(p, if dy < 0 then 1 else -1);
        startY := Some(y);
      } else {
        r := None;
      }
    }

    /** A touch end forgets the drag. */
    method OnTouchEnd()
      modifies this
      ensures startY == None && lastWheelTs == old(lastWheelTs)
    {
      startY := None;
    }
  }
}

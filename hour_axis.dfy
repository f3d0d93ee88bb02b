/** The fixed hour axis 07..21 that all three components lay their hours on: `allHours`
    of the wheel widget, `hourColumns` of the workload chart and the rows of `ALL_TIMES`
    in the slot picker. */
module HourAxis {
  import opened Builtins

  const HourStart := 7
  const HourEnd := 21

  /** `Array.from({length: HOUR_END - HOUR_START + 1}, (_, i) => HOUR_START + i)` */
  function Hours(): (r: seq<int>)
    ensures |r| == 15
    ensures forall i :: 0 <= i < |r| ==> r[i] == HourStart + i
  {
    seq(HourEnd - HourStart + 1, i => HourStart + i)
  }

  /** An hour's position on the axis: its offset from 07:00 for 7..21, and -1 for any
      other hour. */
  lemma AxisIndexOf(h: int)
    ensures IndexOf(Hours(), h) == if HourStart <= h <= HourEnd then h - HourStart else -1
  {
    var s := Hours();
    if HourStart <= h <= HourEnd {
      assert s[h - HourStart] == h;
      var k := IndexOf(s, h);
      assert s[k] == HourStart + k;
    } else {
      assert h !in s;
    }
  }
}

/**
 The fan control law: temperature bands to a target speed
 (`service/fan/service.c`, `check_fan_rpm`), target speed to duty by piecewise
 linear interpolation over a measured table, and duty to pulse width
 (`driver/fan.c`).
 */
module FanLaw {
  const U16: nat := 0x1_0000
  const U32: nat := 0x1_0000_0000

  // One band: speed in hundreds of rpm for readings above `low` up to `high`.
  datatype Row = Row(rpm: nat, high: nat, low: nat)

  // One measured point of a fan.
  datatype Point = Point(pwm: nat, rpm: nat)

  function Max(a: nat, b: nat): nat {
    if a >= b then a else b
  }

  // ------------------------------------------------------ fixed-width arithmetic

  function Times(a: nat, b: nat): nat {
    a * b
  }

  function Over(n: nat, d: nat): nat
    requires d > 0
  {
    n / d
  }

  function Wrap32(x: int): nat {
    x % U32
  }

  function Wrap16(x: int): nat {
    x % U16
  }

  lemma Wrap32Fits(x: nat)
    requires x < U32
    ensures Wrap32(x) == x
  {
  }

  lemma Wrap16Fits(x: nat)
    requires x < U16
    ensures Wrap16(x) == x
  {
  }

  lemma TimesMonotone(a: nat, b: nat, c: nat)
    requires a <= b
    ensures Times(a, c) <= Times(b, c)
  {
    assert b * c == a * c + (b - a) * c;
  }

  lemma TimesZero(d: nat, c: nat)
    ensures Times(0, c) == 0 == Times(d, 0)
  {
  }

  lemma TimesCommutes(a: nat, b: nat)
    ensures Times(a, b) == Times(b, a)
  {
  }

  lemma TimesNext(a: nat, b: nat)
    ensures Times(a + 1, b) == Times(a, b) + b
  {
  }

  lemma TimesFits(a: nat, b: nat)
    requires a < U16 && b < U16
    ensures Times(a, b) < U32
  {
    TimesMonotone(a, U16, b);
    assert Times(U16, b) == U16 * b;
  }

  lemma TimesCancel(a: nat, b: nat, d: nat)
    requires Times(a, d) < Times(b, d)
    ensures a < b
  {
    hide Times;
    if b <= a {
      TimesMonotone(b, a, d);
    }
  }

  lemma OverBounds(n: nat, d: nat)
    requires d > 0
    ensures Times(Over(n, d), d) <= n < Times(Over(n, d) + 1, d)
  {
    assert n == n / d * d + n % d;
    TimesNext(n / d, d);
  }

  lemma OverMonotone(x: nat, y: nat, d: nat)
    requires x <= y && d > 0
    ensures Over(x, d) <= Over(y, d)
  {
    hide Times;
    hide Over;
    OverBounds(x, d);
    OverBounds(y, d);
    TimesCancel(Over(x, d), Over(y, d) + 1, d);
  }

  lemma OverTimes(d: nat, q: nat)
    requires d > 0
    ensures Over(Times(d, q), d) == q
  {
    hide Times;
    hide Over;
    var n := Times(d, q);
    TimesCommutes(d, q);
    OverBounds(n, d);
    TimesNext(q, d);
    TimesCancel(Over(n, d), q + 1, d);
    TimesCancel(q, Over(n, d) + 1, d);
  }

  // ------------------------------------------------------------ the band tables

  predicate Bytes(rows: seq<Row>) {
    forall i :: 0 <= i < |rows| ==> rows[i].rpm < 256 && rows[i].high < 256 && rows[i].low < 256
  }

  predicate Matches(r: Row, t: nat) {
    r.low < t <= r.high
  }

  function Demand(rows: seq<Row>, t: nat): nat
    decreases |rows|
  {
    if rows == [] then 0
    else
      var k := |rows| - 1;
      Max(Demand(rows[..k], t), if Matches(rows[k], t) then rows[k].rpm else 0)
  }

  // Tenths of a degree to whole degrees, in eight bits.
  function Reading(raw: nat): nat {
    raw / 10 % 256
  }

  // Over all sources, in hundreds of rpm; a source without a table has no rows.
  function Wanted(luts: seq<seq<Row>>, raws: seq<nat>): nat
    requires |luts| <= |raws|
    decreases |luts|
  {
    if luts == [] then 0
    else
      var k := |luts| - 1;
      Max(Wanted(luts[..k], raws), Demand(luts[k], Reading(raws[k])))
  }

  // The greatest demand of any source's table at that source's temperature.
  lemma {:induction false} WantedIsGreatest(luts: seq<seq<Row>>, raws: seq<nat>)
    requires |luts| <= |raws|
    ensures forall n :: 0 <= n < |luts| ==> Demand(luts[n], raws[n] / 10 % 256) <= Wanted(luts, raws)
    ensures Wanted(luts, raws) == 0
            || exists n :: 0 <= n < |luts| && Demand(luts[n], raws[n] / 10 % 256) == Wanted(luts, raws)
    decreases |luts|
  {
    hide Demand;
    if luts != [] {
      var k := |luts| - 1;
      WantedIsGreatest(luts[..k], raws);
      assert forall n :: 0 <= n < k ==> luts[..k][n] == luts[n];
      if Wanted(luts, raws) != 0 && Wanted(luts, raws) == Wanted(luts[..k], raws) {
        var n :| 0 <= n < k && Demand(luts[..k][n], raws[n] / 10 % 256) == Wanted(luts[..k], raws);
        assert luts[n] == luts[..k][n];
      }
    }
  }

  predicate AllBytes(luts: seq<seq<Row>>) {
    forall n :: 0 <= n < |luts| ==> Bytes(luts[n])
  }

  // For any rows a host may have written: the greatest speed of a band holding
  // the reading, or none.
  lemma {:induction false} DemandIsGreatest(rows: seq<Row>, t: nat)
    ensures forall i :: 0 <= i < |rows| && Matches(rows[i], t) ==> rows[i].rpm <= Demand(rows, t)
    ensures Demand(rows, t) == 0 || exists i :: 0 <= i < |rows| && Matches(rows[i], t) && rows[i].rpm == Demand(rows, t)
    decreases |rows|
  {
    if rows != [] {
      var k := |rows| - 1;
      DemandIsGreatest(rows[..k], t);
      forall i | 0 <= i < |rows| && Matches(rows[i], t) ensures rows[i].rpm <= Demand(rows, t) {
        if i < k {
          assert rows[..k][i] == rows[i];
        }
      }
      if Demand(rows, t) == Demand(rows[..k], t) != 0 {
        var i :| 0 <= i < k && Matches(rows[..k][i], t) && rows[..k][i].rpm == Demand(rows[..k], t);
        assert rows[i] == rows[..k][i];
      }
    }
  }

  lemma {:induction false} DemandIsByte(rows: seq<Row>, t: nat)
    requires Bytes(rows)
    ensures Demand(rows, t) < 256
    decreases |rows|
  {
    DemandIsGreatest(rows, t);
  }

  lemma {:induction false} WantedIsByte(luts: seq<seq<Row>>, raws: seq<nat>)
    requires |luts| <= |raws| && AllBytes(luts)
    ensures Wanted(luts, raws) < 256
    decreases |luts|
  {
    if luts != [] {
      var k := |luts| - 1;
      WantedIsByte(luts[..k], raws);
      DemandIsByte(luts[k], Reading(raws[k]));
    }
  }

  // The target speed, with the 16-bit product the code computes.
  function TargetRpm(luts: seq<seq<Row>>, raws: seq<nat>): nat
    requires |luts| <= |raws|
  {
    Wanted(luts, raws) * 100 % U16
  }

  lemma TargetExact(luts: seq<seq<Row>>, raws: seq<nat>)
    requires |luts| <= |raws| && AllBytes(luts)
    ensures TargetRpm(luts, raws) == 100 * Wanted(luts, raws) <= 25500
  {
    WantedIsByte(luts, raws);
  }

  method CheckFanRpm(luts: seq<seq<Row>>, raws: seq<nat>) returns (rpm: nat)
    requires |luts| <= |raws| && AllBytes(luts)
    ensures rpm == TargetRpm(luts, raws)
  {
    rpm := 0;
    var n := 0;
    while n < |luts|
      invariant 0 <= n <= |luts| && rpm == Wanted(luts[..n], raws)
    {
      var lut := luts[n];
      var before := rpm;
      if |lut| != 0 {
        var temp := raws[n] / 10 % 256;
        var i := 0;
        while i < |lut|
          invariant 0 <= i <= |lut| && rpm == Max(before, Demand(lut[..i], temp))
        {
          if temp > lut[i].low && temp <= lut[i].high {
            rpm := Max(rpm, lut[i].rpm);
          }
          i := i + 1;
          assert lut[..i][..i - 1] == lut[..i - 1];
        }
        assert lut[..i] == lut;
      }
      n := n + 1;
      assert luts[..n][..n - 1] == luts[..n - 1];
    }
    assert luts[..n] == luts;
    rpm := rpm * 100 % U16;
  }

  // Bands in order, overlapping or touching, up to the top of the scale.
  predicate WellFormed(rows: seq<Row>) {
    && |rows| > 0 && Bytes(rows) && rows[|rows| - 1].high == 255
    && (forall i, j :: 0 <= i <= j < |rows| ==> rows[i].rpm <= rows[j].rpm)
    && (forall i :: 0 <= i < |rows| - 1 ==> rows[i + 1].low <= rows[i].high)
  }

  // The speed of the last row that starts below the reading.
  function LastBelow(rows: seq<Row>, t: nat): nat
    decreases |rows|
  {
    if rows == [] then 0
    else
      var k := |rows| - 1;
      if rows[k].low < t then rows[k].rpm else LastBelow(rows[..k], t)
  }

  function LastIndex(rows: seq<Row>, t: nat): (k: nat)
    ensures k <= |rows|
    decreases |rows|
  {
    if rows == [] then 0
    else if rows[|rows| - 1].low < t then |rows|
    else LastIndex(rows[..|rows| - 1], t)
  }

  lemma {:induction false} LastIndexIs(rows: seq<Row>, t: nat)
    ensures var k := LastIndex(rows, t);
      && (k > 0 ==> rows[k - 1].low < t && LastBelow(rows, t) == rows[k - 1].rpm)
      && (k == 0 ==> LastBelow(rows, t) == 0)
      && forall i :: k <= i < |rows| ==> rows[i].low >= t
    decreases |rows|
  {
    if rows != [] && rows[|rows| - 1].low >= t {
      LastIndexIs(rows[..|rows| - 1], t);
      assert forall i :: 0 <= i < |rows| - 1 ==> rows[..|rows| - 1][i] == rows[i];
    }
  }

  // Scan-and-maximise over a well-formed table is a single lookup.
  lemma LookupClosedForm(rows: seq<Row>, t: nat)
    requires WellFormed(rows) && t < 256
    ensures Demand(rows, t) == LastBelow(rows, t)
  {
    LastIndexIs(rows, t);
    DemandIsGreatest(rows, t);
    var k := LastIndex(rows, t);
    if k > 0 {
      if k < |rows| {
        assert rows[k - 1 + 1].low <= rows[k - 1].high;
      }
      assert Matches(rows[k - 1], t);
    }
  }

  lemma {:induction false} LookupMonotone(rows: seq<Row>, t: nat, u: nat)
    requires WellFormed(rows) && t <= u < 256
    ensures Demand(rows, t) <= Demand(rows, u)
  {
    LookupClosedForm(rows, t);
    LookupClosedForm(rows, u);
    LastIndexIs(rows, t);
    LastIndexIs(rows, u);
    assert LastIndex(rows, t) <= LastIndex(rows, u);
  }

  predicate AllWellFormed(luts: seq<seq<Row>>) {
    forall n :: 0 <= n < |luts| ==> luts[n] == [] || WellFormed(luts[n])
  }

  // Every source at most as hot, none hot enough for the eight-bit reading to
  // wrap.
  predicate Cooler(a: seq<nat>, b: seq<nat>) {
    |a| == |b| && forall n :: 0 <= n < |a| ==> a[n] <= b[n] < 2560
  }

  lemma {:induction false} WantedMonotone(luts: seq<seq<Row>>, a: seq<nat>, b: seq<nat>)
    requires AllWellFormed(luts) && |luts| <= |a| && Cooler(a, b)
    ensures Wanted(luts, a) <= Wanted(luts, b)
    decreases |luts|
  {
    if luts != [] {
      var k := |luts| - 1;
      WantedMonotone(luts[..k], a, b);
      if luts[k] != [] {
        assert a[k] <= b[k];
        assert Reading(a[k]) <= Reading(b[k]);
        LookupMonotone(luts[k], Reading(a[k]), Reading(b[k]));
      }
    }
  }

  // -------------------------------------------------------------- interpolation

  predicate Rising(track: seq<Point>) {
    && |track| >= 2
    && (forall i :: 0 <= i < |track| ==> track[i].pwm < U16 && track[i].rpm < U16)
    && (forall i, j :: 0 <= i < j < |track| ==> track[i].rpm < track[j].rpm)
    && (forall i, j :: 0 <= i <= j < |track| ==> track[i].pwm <= track[j].pwm)
  }

  // The interpolation, in the widths the code uses.
  function Between(lo: Point, hi: Point, target: nat): nat
    requires lo.rpm < hi.rpm
  {
    var numerator := Wrap32(Times(Wrap32(target - lo.rpm), Wrap32(hi.pwm - lo.pwm)));
    Wrap16(lo.pwm + Over(numerator, hi.rpm - lo.rpm))
  }

  // First segment at or after `i` holding the target.
  function Segment(track: seq<Point>, target: nat, i: nat): (k: nat)
    requires i < |track|
    ensures i <= k < |track|
    ensures k < |track| - 1 ==> track[k].rpm <= target <= track[k + 1].rpm
    decreases |track| - i
  {
    if i == |track| - 1 then i
    else if track[i].rpm <= target <= track[i + 1].rpm then i
    else Segment(track, target, i + 1)
  }

  function Pwm(track: seq<Point>, target: nat): nat
    requires Rising(track)
  {
    var top := |track| - 1;
    if target <= track[0].rpm then track[0].pwm
    else if target >= track[top].rpm then track[top].pwm
    else
      var i := Segment(track, target, 0);
      if i < top then Between(track[i], track[i + 1], target) else 0
  }

  method CalFanPwm(track: seq<Point>, target: nat) returns (pwm: nat)
    requires Rising(track)
    ensures pwm == Pwm(track, target)
  {
    hide Times;
    hide Over;
    hide Wrap16;
    hide Wrap32;
    var top := |track| - 1;
    if target <= track[0].rpm {
      return track[0].pwm;
    }
    if target >= track[top].rpm {
      return track[top].pwm;
    }
    var i := 0;
    while i < top
      invariant 0 <= i <= top && Segment(track, target, i) == Segment(track, target, 0)
    {
      if target >= track[i].rpm && target <= track[i + 1].rpm {
        var numerator := Wrap32(Times(Wrap32(target - track[i].rpm), Wrap32(track[i + 1].pwm - track[i].pwm)));
        var denominator := track[i + 1].rpm - track[i].rpm;
        return Wrap16(track[i].pwm + Over(numerator, denominator));
      }
      i := i + 1;
    }
    pwm := 0;
  }

  predicate Inside(track: seq<Point>, target: nat, i: nat) {
    i + 1 < |track| && track[i].rpm <= target <= track[i + 1].rpm
  }

  // The rise over a segment, unrounded, times the length of its run.
  function Scaled(lo: Point, hi: Point, target: nat): nat
    requires Segmental(lo, hi) && lo.rpm <= target
  {
    Times(target - lo.rpm, hi.pwm - lo.pwm)
  }

  predicate Segmental(lo: Point, hi: Point) {
    lo.rpm < hi.rpm < U16 && lo.pwm <= hi.pwm < U16
  }

  // No intermediate value leaves its width, so the code computes the exact
  // line rounded down.
  lemma NoOverflow(lo: Point, hi: Point, target: nat)
    requires Segmental(lo, hi) && lo.rpm <= target <= hi.rpm
    ensures Scaled(lo, hi, target) < U32
    ensures var q := Over(Scaled(lo, hi, target), hi.rpm - lo.rpm);
      q <= hi.pwm - lo.pwm && Between(lo, hi, target) == lo.pwm + q
  {
    hide Times;
    hide Over;
    hide Wrap16;
    hide Wrap32;
    var a, rise, run := target - lo.rpm, hi.pwm - lo.pwm, hi.rpm - lo.rpm;
    TimesFits(a, rise);
    Wrap32Fits(a);
    Wrap32Fits(rise);
    Wrap32Fits(Times(a, rise));
    TimesMonotone(a, run, rise);
    OverMonotone(Times(a, rise), Times(run, rise), run);
    OverTimes(run, rise);
    Wrap16Fits(lo.pwm + Over(Times(a, rise), run));
  }

  // A target on a shared point falls in the earlier segment and gets the
  // point's own duty either way.
  lemma {:induction false} SegmentValue(track: seq<Point>, target: nat, i: nat)
    requires Rising(track) && Inside(track, target, i)
    ensures var s := Segment(track, target, 0);
      s == i || (i > 0 && s == i - 1 && target == track[i].rpm)
  {
    SegmentFound(track, target, 0, i);
    var s := Segment(track, target, 0);
    if s < i {
      assert track[s + 1].rpm <= track[i].rpm;
    }
  }

  lemma {:induction false} SegmentFound(track: seq<Point>, target: nat, from: nat, i: nat)
    requires Inside(track, target, i) && from <= i
    ensures Segment(track, target, from) <= i
    decreases i - from
  {
    if !Inside(track, target, from) {
      SegmentFound(track, target, from + 1, i);
    }
  }

  lemma AtEnds(lo: Point, hi: Point)
    requires Segmental(lo, hi)
    ensures Between(lo, hi, lo.rpm) == lo.pwm && Between(lo, hi, hi.rpm) == hi.pwm
  {
    hide Between;
    hide Times;
    hide Over;
    NoOverflow(lo, hi, lo.rpm);
    NoOverflow(lo, hi, hi.rpm);
    OverTimes(hi.rpm - lo.rpm, hi.pwm - lo.pwm);
    OverTimes(hi.rpm - lo.rpm, 0);
    TimesZero(hi.rpm - lo.rpm, hi.pwm - lo.pwm);
  }

  // Whichever segment holds the target, the duty is that segment's line.
  lemma PwmIsLine(track: seq<Point>, target: nat, i: nat)
    requires Rising(track) && Inside(track, target, i)
    ensures Pwm(track, target) == Between(track[i], track[i + 1], target)
  {
    hide Between;
    SegmentValue(track, target, i);
    AtEnds(track[i], track[i + 1]);
    if i > 0 {
      AtEnds(track[i - 1], track[i]);
    }
  }

  lemma {:induction false} SomeSegment(track: seq<Point>, target: nat, i: nat) returns (k: nat)
    requires Rising(track) && i < |track| && track[i].rpm <= target < track[|track| - 1].rpm
    ensures i <= k && Inside(track, target, k)
    decreases |track| - i
  {
    if target <= track[i + 1].rpm {
      k := i;
    } else {
      k := SomeSegment(track, target, i + 1);
    }
  }

  // Exact at every measured point, and between two of them at most one count
  // below the exact line and never outside the two duties.
  lemma Interpolates(track: seq<Point>, target: nat, i: nat)
    requires Rising(track) && Inside(track, target, i)
    ensures var lo, hi, pwm := track[i], track[i + 1], Pwm(track, target);
      var run := hi.rpm - lo.rpm;
      && lo.pwm <= pwm <= hi.pwm
      && Times(pwm - lo.pwm, run) <= Scaled(lo, hi, target) < Times(pwm - lo.pwm + 1, run)
      && (target == lo.rpm ==> pwm == lo.pwm) && (target == hi.rpm ==> pwm == hi.pwm)
  {
    hide Pwm;
    hide Between;
    hide Times;
    hide Over;
    hide Segment;
    PwmIsLine(track, target, i);
    var lo, hi := track[i], track[i + 1];
    NoOverflow(lo, hi, target);
    AtEnds(lo, hi);
    OverBounds(Scaled(lo, hi, target), hi.rpm - lo.rpm);
  }

  // Never the fall-through value: a duty in the table's own range.
  lemma PwmInRange(track: seq<Point>, target: nat)
    requires Rising(track)
    ensures track[0].pwm <= Pwm(track, target) <= track[|track| - 1].pwm
    ensures target <= track[0].rpm || target >= track[|track| - 1].rpm || Segment(track, target, 0) < |track| - 1
  {
    if track[0].rpm < target < track[|track| - 1].rpm {
      var k := SomeSegment(track, target, 0);
      Interpolates(track, target, k);
      SegmentFound(track, target, 0, k);
    }
  }

  lemma LineMonotone(lo: Point, hi: Point, a: nat, b: nat)
    requires Segmental(lo, hi) && lo.rpm <= a <= b <= hi.rpm
    ensures Between(lo, hi, a) <= Between(lo, hi, b)
  {
    hide Between;
    hide Times;
    hide Over;
    NoOverflow(lo, hi, a);
    NoOverflow(lo, hi, b);
    TimesMonotone(a - lo.rpm, b - lo.rpm, hi.pwm - lo.pwm);
    OverMonotone(Scaled(lo, hi, a), Scaled(lo, hi, b), hi.rpm - lo.rpm);
  }

  lemma PwmMonotone(track: seq<Point>, a: nat, b: nat)
    requires Rising(track) && a <= b
    ensures Pwm(track, a) <= Pwm(track, b)
  {
    hide Between;
    hide Segment;
    PwmInRange(track, a);
    PwmInRange(track, b);
    var top := |track| - 1;
    if track[0].rpm < a && b < track[top].rpm {
      var i := SomeSegment(track, a, 0);
      var j := SomeSegment(track, b, 0);
      Interpolates(track, a, i);
      Interpolates(track, b, j);
      if i < j {
        assert track[i + 1].pwm <= track[j].pwm;
      } else if j < i {
        assert track[j + 1].rpm <= track[i].rpm;
        assert a == b;
      } else {
        PwmIsLine(track, a, i);
        PwmIsLine(track, b, i);
        LineMonotone(track[i], track[i + 1], a, b);
      }
    }
  }

  // --------------------------------------------------------------- pulse width

  // Nanoseconds of one PWM period.
  const PERIOD: nat := 40000

  function Pulse(pwm: nat): nat {
    PERIOD * pwm / U16
  }

  // The duty's share of 65536 of a 40000 ns period, rounded down.
  lemma PulseIsShare(pwm: nat)
    ensures 65536 * Pulse(pwm) <= 40000 * pwm < 65536 * (Pulse(pwm) + 1)
  {
  }

  lemma PulseBelowPeriod(pwm: nat)
    requires pwm < U16
    ensures Pulse(pwm) < PERIOD
  {
  }

  // What one fan is driven with for these tables and temperatures.
  function Drive(luts: seq<seq<Row>>, track: seq<Point>, raws: seq<nat>): nat
    requires |luts| <= |raws| && Rising(track)
  {
    Pulse(Pwm(track, TargetRpm(luts, raws)))
  }

  // Raising any temperature never lowers the pulse, and it stays inside the
  // period.
  lemma HotterNeverSlower(luts: seq<seq<Row>>, track: seq<Point>, a: seq<nat>, b: seq<nat>)
    requires AllWellFormed(luts) && Rising(track) && |luts| <= |a| && Cooler(a, b)
    ensures Drive(luts, track, a) <= Drive(luts, track, b) < PERIOD
  {
    hide Pwm;
    assert AllBytes(luts);
    TargetExact(luts, a);
    TargetExact(luts, b);
    WantedMonotone(luts, a, b);
    var x, y := TargetRpm(luts, a), TargetRpm(luts, b);
    PwmMonotone(track, x, y);
    PwmInRange(track, y);
    PulseBelowPeriod(Pwm(track, y));
  }
}

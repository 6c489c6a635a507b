/**
 The shipped fan tables (`driver/fan.c`) are of the shape the control law's
 theorems ask for, and how far its monotonicity reaches.
 */
module FanTables {
  import opened FanLaw

  const FAN1_TRACK: seq<Point> := [
    Point(0, 1935), Point(6553, 1936), Point(13107, 1962), Point(19660, 3009), Point(26214, 4034), Point(32767, 4995),
    Point(39321, 5982), Point(45874, 6920), Point(52428, 7772), Point(58981, 8620), Point(65535, 9389)]

  const FAN2_TRACK: seq<Point> := [
    Point(0, 3103), Point(6553, 4332), Point(13107, 5338), Point(19660, 6204), Point(26214, 7067), Point(32767, 7853),
    Point(39321, 8633), Point(45874, 9287), Point(52428, 9677), Point(58981, 10101), Point(65535, 10327)]

  // The profile loaded at start; each fan has the same rows for both sources.
  const FAN1_LUT: seq<Row> := [
    Row(0x19, 0x4A, 0x00), Row(0x23, 0x4D, 0x47), Row(0x2D, 0x50, 0x4A), Row(0x37, 0x53, 0x4D), Row(0x41, 0x55, 0x50),
    Row(0x4B, 0xFF, 0x53), Row(0x4B, 0xFF, 0xFF), Row(0x4B, 0xFF, 0xFF), Row(0x4B, 0xFF, 0xFF), Row(0x4B, 0xFF, 0xFF)]

  const FAN2_LUT: seq<Row> := [
    Row(0x2D, 0x36, 0x00), Row(0x32, 0x39, 0x34), Row(0x37, 0x3B, 0x36), Row(0x3C, 0x3D, 0x38), Row(0x46, 0x3F, 0x3A),
    Row(0x50, 0x41, 0x3C), Row(0x5A, 0x43, 0x3E), Row(0x64, 0xFF, 0x40), Row(0x64, 0xFF, 0xFF), Row(0x64, 0xFF, 0xFF)]

  lemma {:induction false} RisingByNeighbours(track: seq<Point>)
    requires |track| >= 2
    requires forall i :: 0 <= i < |track| ==> track[i].pwm < U16 && track[i].rpm < U16
    requires forall i :: 0 <= i < |track| - 1 ==> track[i].rpm < track[i + 1].rpm && track[i].pwm <= track[i + 1].pwm
    ensures Rising(track)
  {
    var j := 0;
    while j < |track|
      invariant 0 <= j <= |track|
      invariant forall x, y :: 0 <= x < y < j ==> track[x].rpm < track[y].rpm
      invariant forall x, y :: 0 <= x <= y < j ==> track[x].pwm <= track[y].pwm
    {
      if j > 0 {
        assert track[j - 1].rpm < track[j - 1 + 1].rpm;
      }
      j := j + 1;
    }
  }

  lemma {:induction false} FormedByNeighbours(rows: seq<Row>)
    requires |rows| > 0 && Bytes(rows) && rows[|rows| - 1].high == 255
    requires forall i :: 0 <= i < |rows| - 1 ==> rows[i].rpm <= rows[i + 1].rpm && rows[i + 1].low <= rows[i].high
    ensures WellFormed(rows)
  {
    var j := 0;
    while j < |rows|
      invariant 0 <= j <= |rows|
      invariant forall x, y :: 0 <= x <= y < j ==> rows[x].rpm <= rows[y].rpm
    {
      if j > 0 {
        assert rows[j - 1].rpm <= rows[j - 1 + 1].rpm;
      }
      j := j + 1;
    }
  }

  lemma Fan1Track()
    ensures Rising(FAN1_TRACK)
  {
    RisingByNeighbours(FAN1_TRACK);
  }

  lemma Fan2Track()
    ensures Rising(FAN2_TRACK)
  {
    RisingByNeighbours(FAN2_TRACK);
  }

  lemma Fan1Lut()
    ensures WellFormed(FAN1_LUT)
  {
    FormedByNeighbours(FAN1_LUT);
  }

  lemma Fan2Lut()
    ensures WellFormed(FAN2_LUT)
  {
    FormedByNeighbours(FAN2_LUT);
  }

  // ---------------------------------------------------- how hot is too hot

  predicate Below(a: seq<nat>, b: seq<nat>, bound: nat) {
    |a| == |b| && forall n :: 0 <= n < |a| ==> a[n] <= b[n] < bound
  }

  ghost predicate MonotoneBelow(luts: seq<seq<Row>>, track: seq<Point>, bound: nat)
    requires Rising(track)
  {
    forall a, b :: |a| == |luts| && Below(a, b, bound) ==> Drive(luts, track, a) <= Drive(luts, track, b)
  }

  function Zeros(n: nat): seq<nat> {
    seq(n, i => 0)
  }

  lemma {:induction false} DemandAtZero(rows: seq<Row>)
    ensures Demand(rows, 0) == 0
  {
    DemandIsGreatest(rows, 0);
  }

  // One warm source among cold ones decides alone.
  lemma {:induction false} OnlySource(luts: seq<seq<Row>>, raws: seq<nat>, n: nat)
    requires |luts| <= |raws| && n < |raws|
    requires forall i :: 0 <= i < |raws| && i != n ==> raws[i] == 0
    ensures Wanted(luts, raws) == if n < |luts| then Demand(luts[n], Reading(raws[n])) else 0
    decreases |luts|
  {
    if luts != [] {
      var k := |luts| - 1;
      OnlySource(luts[..k], raws, n);
      if k != n {
        DemandAtZero(luts[k]);
      }
    }
  }

  // The law is monotone exactly while no reading passes 255 degrees: a source
  // one tenth hotter than 255.9 reads as zero again and stops the fan.
  lemma MonotoneExactly(luts: seq<seq<Row>>, track: seq<Point>, bound: nat, n: nat)
    requires AllWellFormed(luts) && Rising(track) && n < |luts|
    requires Pulse(Pwm(track, 100 * Demand(luts[n], 255))) > Pulse(track[0].pwm)
    ensures MonotoneBelow(luts, track, bound) <==> bound <= 2560
  {
    hide Pwm;
    if bound <= 2560 {
      forall a, b | |a| == |luts| && Below(a, b, bound) ensures Drive(luts, track, a) <= Drive(luts, track, b) {
        assert Cooler(a, b);
        HotterNeverSlower(luts, track, a, b);
      }
    } else {
      var a, b := Zeros(|luts|)[n := 2559], Zeros(|luts|)[n := 2560];
      WrapStops(luts, track, n, a, b);
      assert Below(a, b, bound);
    }
  }

  lemma WrapStops(luts: seq<seq<Row>>, track: seq<Point>, n: nat, a: seq<nat>, b: seq<nat>)
    requires AllWellFormed(luts) && Rising(track) && n < |luts| == |a| == |b|
    requires Pulse(Pwm(track, 100 * Demand(luts[n], 255))) > Pulse(track[0].pwm)
    requires forall i :: 0 <= i < |a| && i != n ==> a[i] == b[i] == 0
    requires a[n] == 2559 && b[n] == 2560
    ensures Drive(luts, track, a) > Drive(luts, track, b)
  {
    hide Pulse;
    OnlySource(luts, a, n);
    OnlySource(luts, b, n);
    assert Reading(2559) == 255 && Reading(2560) == 0;
    DemandAtZero(luts[n]);
    TargetExact(luts, a);
    TargetExact(luts, b);
  }

  lemma Fan1Top()
    ensures Rising(FAN1_TRACK) && WellFormed(FAN1_LUT)
    ensures Pulse(Pwm(FAN1_TRACK, 100 * Demand(FAN1_LUT, 255))) > Pulse(FAN1_TRACK[0].pwm)
  {
    hide Pwm;
    hide Demand;
    Fan1Track();
    Fan1Lut();
    DemandIsGreatest(FAN1_LUT, 255);
    assert Matches(FAN1_LUT[5], 255);
    assert Demand(FAN1_LUT, 255) == 0x4B;
    Interpolates(FAN1_TRACK, 7500, 7);
  }

  lemma Fan2Top()
    ensures Rising(FAN2_TRACK) && WellFormed(FAN2_LUT)
    ensures Pulse(Pwm(FAN2_TRACK, 100 * Demand(FAN2_LUT, 255))) > Pulse(FAN2_TRACK[0].pwm)
  {
    hide Pwm;
    hide Demand;
    Fan2Track();
    Fan2Lut();
    DemandIsGreatest(FAN2_LUT, 255);
    assert Matches(FAN2_LUT[7], 255);
    assert Demand(FAN2_LUT, 255) == 0x64;
    Interpolates(FAN2_TRACK, 10000, 8);
  }

  // Both shipped fans, with the profile loaded at start.
  lemma ShippedMonotone(bound: nat)
    ensures Rising(FAN1_TRACK) && Rising(FAN2_TRACK)
    ensures MonotoneBelow([FAN1_LUT, FAN1_LUT], FAN1_TRACK, bound) <==> bound <= 2560
    ensures MonotoneBelow([FAN2_LUT, FAN2_LUT], FAN2_TRACK, bound) <==> bound <= 2560
  {
    hide Pwm;
    hide Demand;
    hide Pulse;
    hide Rising;
    hide WellFormed;
    hide MonotoneBelow;
    Fan1Top();
    Fan2Top();
    MonotoneExactly([FAN1_LUT, FAN1_LUT], FAN1_TRACK, bound, 0);
    MonotoneExactly([FAN2_LUT, FAN2_LUT], FAN2_TRACK, bound, 0);
  }

  // ------------------------------------------------------- the shipped curves

  // Pulse in nanoseconds by the warmest source's reading in whole degrees.
  function Fan1Curve(t: nat): nat {
    if t == 0 then 0
    else if t <= 71 then 10054
    else if t <= 74 then 13915
    else if t <= 77 then 17938
    else if t <= 80 then 22045
    else if t <= 83 then 26207
    else 30722
  }

  function Fan2Curve(t: nat): nat {
    if t == 0 then 0
    else if t <= 52 then 4667
    else if t <= 54 then 6655
    else if t <= 56 then 8747
    else if t <= 58 then 11057
    else if t <= 60 then 15689
    else if t <= 62 then 20753
    else if t <= 64 then 26243
    else 35046
  }

  // The speed each reading asks for, in hundreds of rpm.
  function Fan1Speed(t: nat): nat {
    if t == 0 then 0
    else if t <= 71 then 25
    else if t <= 74 then 35
    else if t <= 77 then 45
    else if t <= 80 then 55
    else if t <= 83 then 65
    else 75
  }

  function Fan2Speed(t: nat): nat {
    if t == 0 then 0
    else if t <= 52 then 45
    else if t <= 54 then 50
    else if t <= 56 then 55
    else if t <= 58 then 60
    else if t <= 60 then 70
    else if t <= 62 then 80
    else if t <= 64 then 90
    else 100
  }

  lemma DemandAt(rows: seq<Row>, t: nat, k: nat)
    requires WellFormed(rows) && t < 256 && k < |rows| && rows[k].low < t
    requires forall i :: k < i < |rows| ==> t <= rows[i].low
    ensures Demand(rows, t) == rows[k].rpm
  {
    hide Demand;
    hide WellFormed;
    LookupClosedForm(rows, t);
    LastIndexIs(rows, t);
  }

  lemma Fan1Demands(t: nat)
    requires t < 256
    ensures Demand(FAN1_LUT, t) == Fan1Speed(t)
  {
    hide Demand;
    Fan1Lut();
    hide WellFormed;
    if t == 0 {
      DemandAtZero(FAN1_LUT);
    } else if t <= 71 {
      DemandAt(FAN1_LUT, t, 0);
    } else if t <= 74 {
      DemandAt(FAN1_LUT, t, 1);
    } else if t <= 77 {
      DemandAt(FAN1_LUT, t, 2);
    } else if t <= 80 {
      DemandAt(FAN1_LUT, t, 3);
    } else if t <= 83 {
      DemandAt(FAN1_LUT, t, 4);
    } else {
      DemandAt(FAN1_LUT, t, 5);
    }
  }

  lemma Fan2Demands(t: nat)
    requires t < 256
    ensures Demand(FAN2_LUT, t) == Fan2Speed(t)
  {
    hide Demand;
    Fan2Lut();
    hide WellFormed;
    if t == 0 {
      DemandAtZero(FAN2_LUT);
    } else if t <= 52 {
      DemandAt(FAN2_LUT, t, 0);
    } else if t <= 54 {
      DemandAt(FAN2_LUT, t, 1);
    } else if t <= 56 {
      DemandAt(FAN2_LUT, t, 2);
    } else if t <= 58 {
      DemandAt(FAN2_LUT, t, 3);
    } else if t <= 60 {
      DemandAt(FAN2_LUT, t, 4);
    } else if t <= 62 {
      DemandAt(FAN2_LUT, t, 5);
    } else if t <= 64 {
      DemandAt(FAN2_LUT, t, 6);
    } else {
      DemandAt(FAN2_LUT, t, 7);
    }
  }

  // The pulse at a speed `above` rpm up a segment, `q` counts above its start.
  lemma At(track: seq<Point>, i: nat, above: nat, q: nat, pulse: nat)
    requires Rising(track) && i + 1 < |track|
    requires var (lo, hi) := (track[i], track[i + 1]); var (run, rise) := (hi.rpm - lo.rpm, hi.pwm - lo.pwm);
      && above <= run && q * run <= above * rise < (q + 1) * run
      && 65536 * pulse <= 40000 * (lo.pwm + q) < 65536 * (pulse + 1)
    ensures Pulse(Pwm(track, track[i].rpm + above)) == pulse
  {
    hide Pwm;
    hide Over;
    var lo, hi, target := track[i], track[i + 1], track[i].rpm + above;
    var run := hi.rpm - lo.rpm;
    PwmIsLine(track, target, i);
    NoOverflow(lo, hi, target);
    hide Between;
    hide Rising;
    OverBounds(Scaled(lo, hi, target), run);
    TimesCancel(Over(Scaled(lo, hi, target), run), q + 1, run);
    TimesCancel(q, Over(Scaled(lo, hi, target), run) + 1, run);
  }

  lemma Fan1Pulses(t: nat)
    ensures Rising(FAN1_TRACK) && Pulse(Pwm(FAN1_TRACK, 100 * Fan1Speed(t))) == Fan1Curve(t)
  {
    Fan1Track();
    hide Pwm;
    hide Between;
    hide Pulse;
    hide Rising;
    if t == 0 {
      PwmAtRest(FAN1_TRACK);
    } else if t <= 71 {
      At(FAN1_TRACK, 2, 538, 3367, 10054);
    } else if t <= 74 {
      At(FAN1_TRACK, 3, 491, 3139, 13915);
    } else if t <= 77 {
      At(FAN1_TRACK, 4, 466, 3177, 17938);
    } else if t <= 80 {
      At(FAN1_TRACK, 5, 505, 3353, 22045);
    } else if t <= 83 {
      At(FAN1_TRACK, 6, 518, 3618, 26207);
    } else {
      At(FAN1_TRACK, 7, 580, 4461, 30722);
    }
  }

  lemma Fan2Pulses(t: nat)
    ensures Rising(FAN2_TRACK) && Pulse(Pwm(FAN2_TRACK, 100 * Fan2Speed(t))) == Fan2Curve(t)
  {
    Fan2Track();
    hide Pwm;
    hide Between;
    hide Pulse;
    hide Rising;
    if t == 0 {
      PwmAtRest(FAN2_TRACK);
    } else if t <= 52 {
      At(FAN2_TRACK, 1, 168, 1094, 4667);
    } else if t <= 54 {
      At(FAN2_TRACK, 1, 668, 4351, 6655);
    } else if t <= 56 {
      At(FAN2_TRACK, 2, 162, 1225, 8747);
    } else if t <= 58 {
      At(FAN2_TRACK, 2, 662, 5009, 11057);
    } else if t <= 60 {
      At(FAN2_TRACK, 3, 796, 6045, 15689);
    } else if t <= 62 {
      At(FAN2_TRACK, 5, 147, 1235, 20753);
    } else if t <= 64 {
      At(FAN2_TRACK, 6, 367, 3677, 26243);
    } else {
      At(FAN2_TRACK, 8, 323, 4992, 35046);
    }
  }

  lemma PwmAtRest(track: seq<Point>)
    requires Rising(track) && track[0].pwm == 0
    ensures Pulse(Pwm(track, 0)) == 0
  {
  }

  lemma TwoSources(lut: seq<Row>, a: nat, b: nat)
    ensures Wanted([lut, lut], [a, b]) == Max(Demand(lut, a / 10 % 256), Demand(lut, b / 10 % 256))
  {
    hide Demand;
    var luts, raws := [lut, lut], [a, b];
    assert luts[..1] == [lut] && [lut][..0] == [];
    assert Wanted([], raws) == 0;
    assert Wanted([lut], raws) == Max(0, Demand(lut, Reading(raws[0])));
  }

  // From end to end, for any two temperatures in tenths of a degree: the pulse
  // of each shipped fan with the profile loaded at start.
  lemma ShippedCurves(a: nat, b: nat)
    ensures Rising(FAN1_TRACK) && Rising(FAN2_TRACK)
    ensures var t := Max(a / 10 % 256, b / 10 % 256);
      && Drive([FAN1_LUT, FAN1_LUT], FAN1_TRACK, [a, b]) == Fan1Curve(t)
      && Drive([FAN2_LUT, FAN2_LUT], FAN2_TRACK, [a, b]) == Fan2Curve(t)
  {
    hide Pwm;
    hide Demand;
    hide Pulse;
    hide Wanted;
    hide Rising;
    var x, y := a / 10 % 256, b / 10 % 256;
    TwoSources(FAN1_LUT, a, b);
    TwoSources(FAN2_LUT, a, b);
    Fan1Demands(x);
    Fan1Demands(y);
    Fan2Demands(x);
    Fan2Demands(y);
    Fan1Pulses(Max(x, y));
    Fan2Pulses(Max(x, y));
  }
}

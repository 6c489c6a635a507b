/**
 The fan service (`service/fan/service.c`): what one turn of its loop does to
 each fan, and what that comes to over any run of turns, host commands and
 constraint messages.
 */
module FanService {
  import opened FanLaw
  import opened Wrappers

  const EINVAL: int := -22
  const SCI_STA_CHG: nat := 0x30
  const SCI_RPM_CROSS: nat := 0x32

  // One fan's control block; a source without a table has no rows.
  datatype Blk = Blk(
    on: bool, rpm: nat, tripLow: nat, tripHigh: nat, luts: seq<seq<Row>>,
    dbgMode: nat, dbgRpm: nat, dbgPwm: nat)

  // The service's data, the driver's permission flag and pulse widths, and the
  // notifications raised so far.
  datatype Sys = Sys(blks: seq<Blk>, temps: seq<nat>, allowOn: bool, pulses: seq<nat>, scis: seq<nat>)

  predicate Valid(s: Sys, tracks: seq<seq<Point>>) {
    && |s.blks| == |tracks| == |s.pulses|
    && (forall i :: 0 <= i < |tracks| ==> Rising(tracks[i]))
    && (forall i :: 0 <= i < |s.blks| ==> BlkOk(s.blks[i], |s.temps|))
  }

  predicate BlkOk(b: Blk, sources: nat) {
    |b.luts| <= sources && AllBytes(b.luts) && b.dbgPwm < 256
  }

  // ------------------------------------------------------------- one fan's turn

  predicate Flips(b: Blk, rpm: nat) {
    (b.rpm == 0 && rpm > 0) || (b.rpm > 0 && rpm == 0)
  }

  function Measured(s: Sys, i: nat, tach: Option<nat>): Sys
    requires i < |s.blks|
  {
    match tach
    case None => s
    case Some(rpm) =>
      var b := s.blks[i];
      s.(blks := s.blks[i := b.(rpm := rpm, on := if Flips(b, rpm) then rpm > 0 else b.on)],
         scis := s.scis + if Flips(b, rpm) then [SCI_STA_CHG + i] else [])
  }

  predicate OutOfTrip(b: Blk) {
    b.rpm < b.tripLow || b.rpm > b.tripHigh
  }

  function Tripped(s: Sys, i: nat): Sys
    requires i < |s.blks|
  {
    s.(scis := s.scis + if OutOfTrip(s.blks[i]) then [SCI_RPM_CROSS + i] else [])
  }

  predicate Debugging(b: Blk) {
    b.dbgMode % 2 == 1
  }

  // Off, a fixed speed or a fixed duty.
  function DebugPulse(b: Blk, track: seq<Point>): nat
    requires Rising(track)
  {
    if b.dbgMode / 2 % 2 == 0 then Pulse(0)
    else if b.dbgMode / 4 % 2 == 1 then Pulse(b.dbgPwm * 256)
    else Pulse(Pwm(track, b.dbgRpm))
  }

  function Driven(s: Sys, i: nat, s0: bool, track: seq<Point>): Sys
    requires i < |s.blks| == |s.pulses| && Rising(track) && |s.blks[i].luts| <= |s.temps|
  {
    var b := s.blks[i];
    if Debugging(b) then s.(pulses := s.pulses[i := DebugPulse(b, track)])
    else if !s0 && s.allowOn then s.(allowOn := false)
    else s.(allowOn := s0 || s.allowOn, pulses := s.pulses[i := Drive(b.luts, track, s.temps)])
  }

  function FanTurn(s: Sys, i: nat, tach: Option<nat>, s0: bool, track: seq<Point>): Sys
    requires i < |s.blks| == |s.pulses| && Rising(track) && |s.blks[i].luts| <= |s.temps|
  {
    Driven(Tripped(Measured(s, i, tach), i), i, s0, track)
  }

  // The first `n` fans of one turn of the loop.
  function Turn(s: Sys, n: nat, tachs: seq<Option<nat>>, s0: bool, tracks: seq<seq<Point>>): (e: Sys)
    requires Valid(s, tracks) && n <= |tracks| == |tachs|
    ensures Valid(e, tracks) && e.temps == s.temps
    decreases n
  {
    hide *;
    if n == 0 then s
    else
      var e := Turn(s, n - 1, tachs, s0, tracks);
      FanTurnValid(e, n - 1, tachs[n - 1], s0, tracks);
      FanTurn(e, n - 1, tachs[n - 1], s0, tracks[n - 1])
  }

  lemma FanTurnValid(s: Sys, i: nat, tach: Option<nat>, s0: bool, tracks: seq<seq<Point>>)
    requires Valid(s, tracks) && i < |tracks|
    ensures i < |s.blks| == |s.pulses| && Rising(tracks[i]) && |s.blks[i].luts| <= |s.temps|
    ensures var e := FanTurn(s, i, tach, s0, tracks[i]); Valid(e, tracks) && e.temps == s.temps
  {
    hide Rising;
    hide Drive;
    hide DebugPulse;
    hide AllBytes;
    assert BlkOk(s.blks[i], |s.temps|);
  }

  // --------------------------------------------------------------- whole runs

  datatype Input =
    | Pass(tachs: seq<Option<nat>>, s0: bool)
    | SetTemp(src: nat, raw: nat)
    | SetTrip(i: nat, low: nat, high: nat)
    | SetDebug(i: nat, mode: nat, rpm: nat, pwm: nat)
    | LoadLuts(i: nat, luts: seq<seq<Row>>)
    | Constrain(allow: bool)

  // Sources are numbered from one.
  function TempSet(s: Sys, src: nat, raw: nat): (Sys, int) {
    if src == 0 || src > |s.temps| then (s, EINVAL) else (s.(temps := s.temps[src - 1 := raw]), 0)
  }

  // A temperature lands at its source, numbered from one, or is refused.
  lemma TempTaken(s: Sys, src: nat, raw: nat)
    ensures var (e, ret) := TempSet(s, src, raw);
      && ret == (if 1 <= src <= |s.temps| then 0 else -22)
      && e == s.(temps := e.temps) && |e.temps| == |s.temps|
      && forall i :: 0 <= i < |s.temps| ==> e.temps[i] == if ret == 0 && i == src - 1 then raw else s.temps[i]
  {
  }

  function Next(s: Sys, input: Input, tracks: seq<seq<Point>>): (e: Sys)
    requires Valid(s, tracks)
    ensures Valid(e, tracks)
  {
    match input
    case Pass(tachs, s0) => if |tachs| == |tracks| then Turn(s, |tracks|, tachs, s0, tracks) else s
    case SetTemp(src, raw) => TempSet(s, src, raw).0
    case SetTrip(i, low, high) =>
      if i >= |s.blks| then s else s.(blks := s.blks[i := s.blks[i].(tripLow := low, tripHigh := high)])
    case SetDebug(i, mode, rpm, pwm) =>
      if i >= |s.blks| then s
      else s.(blks := s.blks[i := s.blks[i].(dbgMode := mode % 256, dbgRpm := rpm % U16, dbgPwm := pwm % 256)])
    case LoadLuts(i, luts) =>
      if i >= |s.blks| || |luts| > |s.temps| || !AllBytes(luts) then s
      else s.(blks := s.blks[i := s.blks[i].(luts := luts)])
    case Constrain(allow) => s.(allowOn := allow)
  }

  // An order for one fan changes that fan's block as given, in the widths of the
  // command, and nothing else.
  lemma OrdersTaken(s: Sys, tracks: seq<seq<Point>>, i: nat, k: nat, x: nat, y: nat, z: nat, luts: seq<seq<Row>>)
    requires Valid(s, tracks) && i < |s.blks| && k < |s.blks| && x < 0x100 && y < 0x1_0000 && z < 0x100
    requires |luts| <= |s.temps| && AllBytes(luts)
    ensures var e := Next(s, SetTrip(i, x, y), tracks);
      && e == s.(blks := e.blks) && |e.blks| == |s.blks|
      && e.blks[k] == if k == i then s.blks[i].(tripLow := x, tripHigh := y) else s.blks[k]
    ensures var e := Next(s, SetDebug(i, x, y, z), tracks);
      && e == s.(blks := e.blks) && |e.blks| == |s.blks|
      && e.blks[k] == if k == i then s.blks[i].(dbgMode := x, dbgRpm := y, dbgPwm := z) else s.blks[k]
    ensures var e := Next(s, LoadLuts(i, luts), tracks);
      && e == s.(blks := e.blks) && |e.blks| == |s.blks|
      && e.blks[k] == if k == i then s.blks[i].(luts := luts) else s.blks[k]
  {
    hide AllBytes;
    hide Rising;
  }

  function Run(s: Sys, inputs: seq<Input>, tracks: seq<seq<Point>>): (e: Sys)
    requires Valid(s, tracks)
    ensures Valid(e, tracks)
    decreases |inputs|
  {
    if inputs == [] then s else Run(Next(s, inputs[0], tracks), inputs[1..], tracks)
  }

  function Count(xs: seq<nat>, x: nat): nat
    decreases |xs|
  {
    if xs == [] then 0 else Count(xs[..|xs| - 1], x) + if xs[|xs| - 1] == x then 1 else 0
  }

  lemma CountSnoc(xs: seq<nat>, y: nat, x: nat)
    ensures Count(xs + [y], x) == Count(xs, x) + if x == y then 1 else 0
  {
    assert (xs + [y])[..|xs|] == xs;
  }

  // A fan is on exactly while its last good reading turns, and the host can
  // tell from the parity of its state-change notifications.
  predicate Tracks(s: Sys, i: nat)
    requires i < |s.blks|
  {
    && s.blks[i].on == (s.blks[i].rpm > 0)
    && s.blks[i].on == (Count(s.scis, SCI_STA_CHG + i) % 2 == 1)
  }

  // Two fans, so the two ranges of codes do not meet.
  predicate AllTrack(s: Sys) {
    |s.blks| <= 2 && forall i :: 0 <= i < |s.blks| ==> Tracks(s, i)
  }

  lemma MeasuredTracks(s: Sys, i: nat, tach: Option<nat>)
    requires AllTrack(s) && i < |s.blks|
    ensures AllTrack(Measured(s, i, tach))
  {
    hide Count;
    if tach.Some? && Flips(s.blks[i], tach.value) {
      forall k | 0 <= k < |s.blks| ensures Tracks(Measured(s, i, tach), k) {
        CountSnoc(s.scis, SCI_STA_CHG + i, SCI_STA_CHG + k);
        assert Tracks(s, k);
      }
    } else {
      assert s.scis + [] == s.scis;
      assert Tracks(s, i);
      forall k | 0 <= k < |s.blks| ensures Tracks(Measured(s, i, tach), k) {
        assert Tracks(s, k);
      }
    }
  }

  lemma TrippedTracks(s: Sys, i: nat)
    requires AllTrack(s) && i < |s.blks|
    ensures AllTrack(Tripped(s, i))
  {
    hide Count;
    forall k | 0 <= k < |s.blks| ensures Tracks(Tripped(s, i), k) {
      assert Tracks(s, k);
      CountSnoc(s.scis, SCI_RPM_CROSS + i, SCI_STA_CHG + k);
      assert s.scis + [] == s.scis;
    }
  }

  lemma {:induction false} TurnTracks(s: Sys, n: nat, tachs: seq<Option<nat>>, s0: bool, tracks: seq<seq<Point>>)
    requires Valid(s, tracks) && n <= |tracks| == |tachs| && AllTrack(s)
    ensures AllTrack(Turn(s, n, tachs, s0, tracks))
    decreases n
  {
    hide Count;
    hide Drive;
    hide DebugPulse;
    hide Measured;
    if n > 0 {
      TurnTracks(s, n - 1, tachs, s0, tracks);
      var e := Turn(s, n - 1, tachs, s0, tracks);
      var m := Measured(e, n - 1, tachs[n - 1]);
      MeasuredShape(e, n - 1, tachs[n - 1]);
      MeasuredTracks(e, n - 1, tachs[n - 1]);
      TrippedTracks(m, n - 1);
      var t := Tripped(m, n - 1);
      DrivenTracks(t, n - 1, s0, tracks[n - 1]);
    }
  }

  lemma MeasuredShape(s: Sys, i: nat, tach: Option<nat>)
    requires i < |s.blks|
    ensures var m := Measured(s, i, tach);
      |m.blks| == |s.blks| && m.pulses == s.pulses && m.temps == s.temps && m.blks[i].luts == s.blks[i].luts
  {
  }

  lemma DrivenTracks(s: Sys, i: nat, s0: bool, track: seq<Point>)
    requires i < |s.blks| == |s.pulses| && Rising(track) && |s.blks[i].luts| <= |s.temps|
    requires AllTrack(s)
    ensures AllTrack(Driven(s, i, s0, track))
  {
    forall k | 0 <= k < |s.blks| ensures Tracks(Driven(s, i, s0, track), k) {
      assert Tracks(s, k);
    }
  }

  lemma NextTracks(s: Sys, input: Input, tracks: seq<seq<Point>>)
    requires Valid(s, tracks) && AllTrack(s)
    ensures AllTrack(Next(s, input, tracks))
  {
    hide Count;
    hide Turn;
    if input.Pass? {
      if |input.tachs| == |tracks| {
        TurnTracks(s, |tracks|, input.tachs, input.s0, tracks);
      }
    } else {
      forall k | 0 <= k < |s.blks| ensures Tracks(Next(s, input, tracks), k) {
        assert Tracks(s, k);
      }
    }
  }

  lemma {:induction false} RunTracks(s: Sys, inputs: seq<Input>, tracks: seq<seq<Point>>)
    requires Valid(s, tracks) && AllTrack(s)
    ensures AllTrack(Run(s, inputs, tracks))
    decreases |inputs|
  {
    hide Next;
    hide AllTrack;
    if inputs != [] {
      NextTracks(s, inputs[0], tracks);
      RunTracks(Next(s, inputs[0], tracks), inputs[1..], tracks);
    }
  }

  // ------------------------------------------------------- what one turn does

  predicate AllDebugging(s: Sys, n: nat)
    requires n <= |s.blks|
  {
    forall k :: 0 <= k < n ==> Debugging(s.blks[k])
  }

  // The pulse a fan ends a turn in S0 with.
  function Due(b: Blk, track: seq<Point>, temps: seq<nat>): nat
    requires Rising(track) && |b.luts| <= |temps|
  {
    if Debugging(b) then DebugPulse(b, track) else Drive(b.luts, track, temps)
  }

  // What a fan is due by the low bits of its debug mode: its tables' pulse, none,
  // the duty measured for a fixed speed, or a share of 256 of the period.
  lemma DebugDrives(b: Blk, track: seq<Point>, temps: seq<nat>)
    requires Rising(track) && |b.luts| <= |temps|
    ensures var pulse := Due(b, track, temps);
      if b.dbgMode % 2 == 0 then !Debugging(b) && pulse == Drive(b.luts, track, temps)
      else if b.dbgMode % 4 == 1 then Debugging(b) && pulse == 0
      else if b.dbgMode % 8 == 3 then Debugging(b) && pulse == Pulse(Pwm(track, b.dbgRpm))
      else Debugging(b) && 256 * pulse <= 40000 * b.dbgPwm < 256 * (pulse + 1)
  {
    hide Pulse;
    hide Pwm;
    hide Drive;
    PulseIsShare(0);
    PulseIsShare(b.dbgPwm * 256);
  }

  // A turn leaves a fan's tables and debug setting alone.
  predicate SameOrders(a: Blk, b: Blk) {
    a.luts == b.luts && a.dbgMode == b.dbgMode && a.dbgRpm == b.dbgRpm && a.dbgPwm == b.dbgPwm
    && a.tripLow == b.tripLow && a.tripHigh == b.tripHigh
  }

  // Taking the permission away is all a turn does for the first fan it meets
  // outside S0 that is not in debug mode.
  predicate KeepsPulse(s: Sys, s0: bool, k: nat)
    requires k < |s.blks|
  {
    !s0 && s.allowOn && AllDebugging(s, k) && !Debugging(s.blks[k])
  }

  lemma FanTurnEffect(s: Sys, i: nat, tach: Option<nat>, s0: bool, track: seq<Point>)
    requires i < |s.blks| == |s.pulses| && Rising(track) && |s.blks[i].luts| <= |s.temps|
    ensures var e := FanTurn(s, i, tach, s0, track);
      && |e.blks| == |s.blks| && |e.pulses| == |s.pulses| && e.temps == s.temps
      && SameOrders(e.blks[i], s.blks[i])
      && e.blks[i].rpm == (if tach.Some? then tach.value else s.blks[i].rpm)
      && (forall k :: 0 <= k < |s.blks| && k != i ==> e.blks[k] == s.blks[k] && e.pulses[k] == s.pulses[k])
      && e.allowOn == (if Debugging(s.blks[i]) then s.allowOn else s0)
      && e.pulses[i] == (if !s0 && s.allowOn && !Debugging(s.blks[i]) then s.pulses[i]
                         else Due(s.blks[i], track, s.temps))
  {
    hide Drive;
    hide Pulse;
    hide Pwm;
  }

  lemma {:induction false} TurnEffect(s: Sys, n: nat, tachs: seq<Option<nat>>, s0: bool, tracks: seq<seq<Point>>)
    requires Valid(s, tracks) && n <= |tracks| == |tachs|
    ensures var e := Turn(s, n, tachs, s0, tracks);
      && (forall k :: 0 <= k < |s.blks| ==> SameOrders(e.blks[k], s.blks[k]))
      && (forall k :: n <= k < |s.blks| ==> e.blks[k] == s.blks[k])
      && e.allowOn == (if AllDebugging(s, n) then s.allowOn else s0)
      && (forall k :: 0 <= k < n ==> e.blks[k].rpm == if tachs[k].Some? then tachs[k].value else s.blks[k].rpm)
      && (forall k :: 0 <= k < n ==> e.pulses[k] == if KeepsPulse(s, s0, k) then s.pulses[k]
                                                   else Due(s.blks[k], tracks[k], s.temps))
      && (forall k :: n <= k < |s.blks| ==> e.pulses[k] == s.pulses[k])
    decreases n
  {
    hide FanTurn;
    hide Drive;
    hide DebugPulse;
    if n > 0 {
      var i := n - 1;
      TurnEffect(s, i, tachs, s0, tracks);
      FanTurnEffect(Turn(s, i, tachs, s0, tracks), i, tachs[i], s0, tracks[i]);
      assert AllDebugging(s, n) == (AllDebugging(s, i) && Debugging(s.blks[i]));
    }
  }

  // The header promises that constrained fans stay off; the code keeps the
  // constraint through a turn in S0 only when every fan is in debug mode.
  lemma ConstraintSurvives(s: Sys, tachs: seq<Option<nat>>, tracks: seq<seq<Point>>)
    requires Valid(s, tracks) && |tachs| == |tracks|
    ensures var c := Next(s, Constrain(false), tracks);
      !Next(c, Pass(tachs, true), tracks).allowOn <==> AllDebugging(s, |tracks|)
  {
    hide Turn;
    TurnEffect(Next(s, Constrain(false), tracks), |tracks|, tachs, true, tracks);
  }

  lemma TurnDue(s: Sys, tachs: seq<Option<nat>>, tracks: seq<seq<Point>>, k: nat)
    requires Valid(s, tracks) && |tachs| == |tracks| && k < |tracks|
    ensures Turn(s, |tracks|, tachs, true, tracks).pulses[k] == Due(s.blks[k], tracks[k], s.temps)
  {
    hide Turn;
    hide Due;
    TurnEffect(s, |tracks|, tachs, true, tracks);
  }

  lemma ValidHot(s: Sys, hot: seq<nat>, tracks: seq<seq<Point>>)
    requires Valid(s, tracks) && |hot| == |s.temps|
    ensures Valid(s.(temps := hot), tracks)
  {
    hide Rising;
  }

  // In S0 hotter sources never get a turn of the loop to slow any fan.
  lemma HotterTurn(s: Sys, hot: seq<nat>, tachs: seq<Option<nat>>, tracks: seq<seq<Point>>, k: nat)
    requires Valid(s, tracks) && |tachs| == |tracks| && Cooler(s.temps, hot)
    requires k < |tracks| && AllWellFormed(s.blks[k].luts)
    ensures Valid(s.(temps := hot), tracks)
    ensures Turn(s, |tracks|, tachs, true, tracks).pulses[k]
         <= Turn(s.(temps := hot), |tracks|, tachs, true, tracks).pulses[k]
  {
    hide Turn;
    hide Due;
    hide Cooler;
    hide AllWellFormed;
    hide Rising;
    CoolerLength(s.temps, hot);
    ValidHot(s, hot, tracks);
    TurnDue(s, tachs, tracks, k);
    TurnDue(s.(temps := hot), tachs, tracks, k);
    DueMonotone(s.blks[k], tracks[k], s.temps, hot);
  }

  lemma CoolerLength(a: seq<nat>, b: seq<nat>)
    requires Cooler(a, b)
    ensures |a| == |b|
  {
  }

  lemma DueMonotone(b: Blk, track: seq<Point>, cool: seq<nat>, hot: seq<nat>)
    requires Rising(track) && AllWellFormed(b.luts) && Cooler(cool, hot) && |b.luts| <= |cool|
    ensures Due(b, track, cool) <= Due(b, track, hot)
  {
    hide Drive;
    hide DebugPulse;
    HotterNeverSlower(b.luts, track, cool, hot);
  }

  // Fan `k`, among the first `n`, has started or stopped turning.
  predicate Turned(s: Sys, tachs: seq<Option<nat>>, n: nat, k: int)
    requires n <= |s.blks| && n <= |tachs|
  {
    0 <= k < n && tachs[k].Some? && (tachs[k].value > 0) != (s.blks[k].rpm > 0)
  }

  // The speed it then records is out of its limits.
  predicate Strays(s: Sys, tachs: seq<Option<nat>>, n: nat, k: int)
    requires n <= |s.blks| && n <= |tachs|
  {
    0 <= k < n &&
    var rpm := if tachs[k].Some? then tachs[k].value else s.blks[k].rpm;
    rpm < s.blks[k].tripLow || s.blks[k].tripHigh < rpm
  }

  // A turn raises, once each, 0x30 and 0x31 for the fans that have started or
  // stopped, 0x32 and 0x33 for those whose speed is out of their limits, and
  // nothing else.
  lemma {:induction false} TurnNotices(s: Sys, n: nat, tachs: seq<Option<nat>>, s0: bool, tracks: seq<seq<Point>>,
                                       x: nat)
    requires Valid(s, tracks) && n <= |tracks| == |tachs| <= 2
    ensures Count(Turn(s, n, tachs, s0, tracks).scis, x)
         == Count(s.scis, x) + (if Turned(s, tachs, n, x - 0x30) then 1 else 0)
            + (if Strays(s, tachs, n, x - 0x32) then 1 else 0)
    decreases n
  {
    hide Drive;
    hide DebugPulse;
    hide Count;
    if n > 0 {
      var i := n - 1;
      TurnNotices(s, i, tachs, s0, tracks, x);
      TurnEffect(s, i, tachs, s0, tracks);
      var e := Turn(s, i, tachs, s0, tracks);
      assert e.blks[i] == s.blks[i];
      FanTurnNotices(e, i, tachs[i], s0, tracks[i], x);
      hide FanTurn;
    }
  }

  lemma FanTurnNotices(s: Sys, i: nat, tach: Option<nat>, s0: bool, track: seq<Point>, x: nat)
    requires i < |s.blks| == |s.pulses| && Rising(track) && |s.blks[i].luts| <= |s.temps|
    ensures var rpm := if tach.Some? then tach.value else s.blks[i].rpm;
      Count(FanTurn(s, i, tach, s0, track).scis, x)
        == Count(s.scis, x) + (if x == 0x30 + i && tach.Some? && (rpm > 0) != (s.blks[i].rpm > 0) then 1 else 0)
           + (if x == 0x32 + i && (rpm < s.blks[i].tripLow || s.blks[i].tripHigh < rpm) then 1 else 0)
  {
    hide Drive;
    hide DebugPulse;
    hide Count;
    var m := Measured(s, i, tach);
    CountSnoc(s.scis, SCI_STA_CHG + i, x);
    CountSnoc(m.scis, SCI_RPM_CROSS + i, x);
    assert s.scis + [] == s.scis && m.scis + [] == m.scis;
  }

  // -------------------------------------------------------- the service itself

  class FanControl {
    const tracks: seq<seq<Point>>
    const blks: array<Blk>
    const temps: array<nat>
    const pulses: array<nat>
    var allowOn: bool
    var scis: seq<nat>

    ghost function View(): Sys
      reads this, blks, temps, pulses
    {
      Sys(blks[..], temps[..], allowOn, pulses[..], scis)
    }

    // The arrays are distinct objects.
    ghost predicate Separate() {
      pulses != temps
    }

    constructor (tracks: seq<seq<Point>>, luts: seq<seq<seq<Row>>>, high: seq<nat>, sources: nat)
      requires |luts| == |tracks| == |high| <= 2
      requires forall i :: 0 <= i < |tracks| ==> Rising(tracks[i])
      requires forall i :: 0 <= i < |luts| ==> |luts[i]| <= sources && AllBytes(luts[i])
      ensures fresh(blks) && fresh(temps) && fresh(pulses) && this.tracks == tracks
      ensures Separate() && Valid(View(), tracks) && AllTrack(View())
    {
      this.tracks := tracks;
      blks := new Blk[|tracks|](i requires 0 <= i < |tracks| == |luts| == |high| =>
        Blk(false, 0, 0, high[i], luts[i], 0, 0, 0));
      temps := new nat[sources](i => 0);
      pulses := new nat[|tracks|](i => 0);
      allowOn, scis := false, [];
      new;
      assert forall i :: 0 <= i < |View().blks| ==> Tracks(View(), i);
    }

    method FanTmpSet(src: nat, raw: nat) returns (ret: int)
      requires Separate()
      modifies temps
      ensures (View(), ret) == TempSet(old(View()), src, raw)
    {
      if src == 0 || src > temps.Length {
        return EINVAL;
      }
      temps[src - 1] := raw;
      ret := 0;
    }

    method Measure(i: nat, tach: Option<nat>)
      requires Separate() && i < blks.Length
      modifies blks, `scis
      ensures View() == Measured(old(View()), i, tach)
    {
      if tach.Some? {
        var rpm := tach.value;
        if (blks[i].rpm == 0 && rpm > 0) || (blks[i].rpm > 0 && rpm == 0) {
          blks[i] := blks[i].(on := rpm > 0);
          scis := scis + [SCI_STA_CHG + i];
        }
        blks[i] := blks[i].(rpm := rpm);
      }
    }

    method CheckFanDebug(i: nat) returns (debug: bool)
      requires Separate() && i < blks.Length == pulses.Length == |tracks| && Rising(tracks[i])
      modifies pulses
      ensures debug == Debugging(blks[i])
      ensures pulses[..] == if debug then old(pulses[..])[i := DebugPulse(blks[i], tracks[i])] else old(pulses[..])
    {
      hide Pulse;
      hide Pwm;
      var b := blks[i];
      if b.dbgMode % 2 == 0 {
        return false;
      }
      if b.dbgMode / 2 % 2 == 1 {
        if b.dbgMode / 4 % 2 == 1 {
          pulses[i] := Pulse(b.dbgPwm * 256);
        } else {
          var pwm := CalFanPwm(tracks[i], b.dbgRpm);
          pulses[i] := Pulse(pwm);
        }
      } else {
        pulses[i] := Pulse(0);
      }
      debug := true;
    }

    method TurnOne(i: nat, tach: Option<nat>, s0: bool)
      requires Separate() && i < blks.Length == pulses.Length == |tracks| && Rising(tracks[i])
      requires BlkOk(blks[i], temps.Length)
      modifies this, blks, pulses
      ensures View() == FanTurn(old(View()), i, tach, s0, tracks[i])
    {
      hide Pulse;
      hide Pwm;
      hide DebugPulse;
      hide TargetRpm;
      Measure(i, tach);
      if blks[i].rpm < blks[i].tripLow || blks[i].rpm > blks[i].tripHigh {
        scis := scis + [SCI_RPM_CROSS + i];
      }
      ghost var t := Tripped(Measured(old(View()), i, tach), i);
      assert View() == t;
      var debug := CheckFanDebug(i);
      assert blks[..] == t.blks && blks[i] == t.blks[i];
      if debug {
        assert View() == Driven(t, i, s0, tracks[i]);
        return;
      }
      assert pulses[..] == t.pulses;
      if !s0 && allowOn {
        allowOn := false;
        return;
      } else if s0 && !allowOn {
        allowOn := true;
      }
      var rpm := CheckFanRpm(blks[i].luts, temps[..]);
      var pwm := CalFanPwm(tracks[i], rpm);
      pulses[i] := Pulse(pwm);
    }

    method LoopTurn(tachs: seq<Option<nat>>, s0: bool)
      requires Separate() && Valid(View(), tracks) && |tachs| == |tracks|
      modifies this, blks, pulses
      ensures Valid(View(), tracks) && View() == Turn(old(View()), |tracks|, tachs, s0, tracks)
    {
      hide FanTurn;
      var fan := 0;
      while fan < blks.Length
        invariant 0 <= fan <= blks.Length == |tracks| == pulses.Length
        invariant View() == Turn(old(View()), fan, tachs, s0, tracks)
      {
        assert Valid(View(), tracks);
        TurnOne(fan, tachs[fan], s0);
        fan := fan + 1;
      }
    }
  }
}

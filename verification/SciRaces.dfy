/**
 Where single accesses of the SCI service (`service/sci/service.c`) can go wrong:
 the exact schedules, runs from start-up that reach them, and what follows.
 */
module SciRaces {
  import opened Sci
  import V = SciService

  // ------------------------------------------------------------ stale timeouts

  // An event has left the queue and its own timer is not running yet.
  predicate Starting(s: State) {
    s.svc.Holding? || s.svc.Raise? || s.svc.StartTimer?
  }

  // A timeout has fired and its handling is not over.
  predicate Live(s: State) {
    s.m.timeout || (s.svc.Woke? && s.svc.t) || s.svc.InTimeout? || s.svc.TimeoutLower?
  }

  // Outside `Starting` the timer belongs to the last published event, and so
  // does a live timeout unless nothing is pending for it to lower.
  predicate TimerInv(s: State) {
    && s.log.armedFor <= s.log.published && s.log.firedFor <= s.log.published
    && (if Starting(s) then s.log.armedFor < s.log.published && s.log.firedFor < s.log.published
        else s.log.armedFor == s.log.published
             && (Live(s) ==> s.log.firedFor == s.log.published || (s.m.buf == NONE && !s.svc.TimeoutLower?)))
  }

  // The timer is not started over an unhandled timeout while its event pends.
  predicate FreshStart(s: State, step: Step) {
    step.SvcStep? && s.svc.StartTimer? ==> !s.m.timeout || s.m.buf == NONE
  }

  predicate FreshStarts(s: State, steps: seq<Step>)
    decreases |steps|
  {
    steps != [] ==> FreshStart(s, steps[0]) && FreshStarts(Next(s, steps[0]), steps[1..])
  }

  // A timeout that lowers the line is that of the last published event.
  predicate Own(s: State, step: Step) {
    step.SvcStep? && s.svc.TimeoutLower? ==> s.log.firedFor == s.log.published
  }

  predicate OwnTimeouts(s: State, steps: seq<Step>)
    decreases |steps|
  {
    steps != [] ==> Own(s, steps[0]) && OwnTimeouts(Next(s, steps[0]), steps[1..])
  }

  lemma InitialTimer(s: State)
    requires Initial(s)
    ensures TimerInv(s)
  {
  }

  lemma TimerService(s: State)
    requires TimerInv(s) && FreshStart(s, SvcStep)
    ensures TimerInv(Service(s))
  {
    hide AllDropped;
    hide Pend;
  }

  lemma TimerStep(s: State, step: Step)
    requires TimerInv(s) && FreshStart(s, step)
    ensures TimerInv(Next(s, step)) && Own(s, step)
  {
    hide AllDelivered;
    hide Pend;
    if step.SvcStep? {
      TimerService(s);
    } else {
      hide Service;
    }
  }

  // In every such schedule a timeout lowers the line of its own event only.
  lemma {:induction false} OnlyOwnTimeouts(s: State, steps: seq<Step>)
    requires TimerInv(s) && FreshStarts(s, steps)
    ensures OwnTimeouts(s, steps) && TimerInv(Run(s, steps))
    decreases |steps|
  {
    hide TimerInv;
    hide Next;
    hide FreshStart;
    hide Own;
    if steps != [] {
      TimerStep(s, steps[0]);
      OnlyOwnTimeouts(Next(s, steps[0]), steps[1..]);
    }
  }

  // Uninterrupted steps the service needs to lower the line, at most four.
  function Distance(s: State): nat {
    match s.svc
    case TimeoutLower(_) => 0
    case InTimeout(_) => 1
    case Woke(t, _) => if t then 2 else 4
    case Waiting => 3
    case _ => 4
  }

  // A timer started over an unhandled timeout lowers the new event's line, if
  // nobody interferes, with the old event's timeout; no other start does.
  lemma StaleStartLowers(s: State)
    requires TimerInv(s) && s.svc.StartTimer?
    ensures var e := Service(Service(Service(Service(s))));
      && (!FreshStart(s, SvcStep) <==> e.svc.TimeoutLower?)
      && (e.svc.TimeoutLower? ==>
            !Own(e, SvcStep) && e.m.buf == s.m.buf != NONE && e.m.line == s.m.line
            && Service(e).m == e.m.(line := false))
  {
    hide AllDropped;
    hide Pend;
    var w := Service(s);
    assert w.svc == Waiting && w.m == s.m.(armed := true);
    if s.m.timeout {
      var i := Service(Service(w));
      assert i.svc.InTimeout? && i.m.buf == s.m.buf && i.log.firedFor == s.log.firedFor < i.log.published;
    }
  }

  const FOUR: seq<Step> := [SvcStep, SvcStep, SvcStep, SvcStep]

  // No step of the schedule, and no four uninterrupted steps of the service
  // after any of its prefixes, lower the line for another event's timeout.
  predicate AllOwn(s: State, steps: seq<Step>)
    decreases |steps|
  {
    OwnTimeouts(s, FOUR) && (steps != [] ==> Own(s, steps[0]) && AllOwn(Next(s, steps[0]), steps[1..]))
  }

  // Nothing stale can lower the line within `k` uninterrupted steps.
  predicate Clear(s: State, k: nat) {
    k <= 4 && (TimerInv(s) || Distance(s) >= k)
  }

  lemma ClearStep(s: State, k: nat)
    requires Clear(s, k) && k > 0
    ensures Own(s, SvcStep) && Clear(Service(s), k - 1)
  {
    hide AllDropped;
    hide Pend;
    if TimerInv(s) && FreshStart(s, SvcStep) {
      TimerService(s);
    }
  }

  lemma {:induction false} ClearRuns(s: State, steps: seq<Step>)
    requires Clear(s, |steps|) && forall x :: x in steps ==> x == SvcStep
    ensures OwnTimeouts(s, steps)
    decreases |steps|
  {
    hide Clear;
    hide Service;
    hide Own;
    if steps != [] {
      assert steps[0] in steps && forall x :: x in steps[1..] ==> x in steps;
      ClearStep(s, |steps|);
      ClearRuns(Service(s), steps[1..]);
    }
  }

  lemma StaleShows(s: State)
    requires TimerInv(s) && !FreshStart(s, SvcStep)
    ensures !OwnTimeouts(Service(s), FOUR)
  {
    StaleStartLowers(s);
    FourOwn(Service(s));
  }

  lemma FourOwn(a: State)
    ensures var b := Service(a); var c := Service(b); var d := Service(c);
      OwnTimeouts(a, FOUR) <==> Own(a, SvcStep) && Own(b, SvcStep) && Own(c, SvcStep) && Own(d, SvcStep)
  {
    hide Service;
    hide Own;
    var b := Service(a);
    var c := Service(b);
    var d := Service(c);
    assert FOUR[1..] == [SvcStep, SvcStep, SvcStep] && FOUR[1..][1..] == [SvcStep, SvcStep];
    assert FOUR[1..][1..][1..] == [SvcStep];
    assert OwnTimeouts(a, FOUR) == (Own(a, SvcStep) && OwnTimeouts(b, FOUR[1..]));
    assert OwnTimeouts(b, FOUR[1..]) == (Own(b, SvcStep) && OwnTimeouts(c, FOUR[1..][1..]));
    assert OwnTimeouts(c, FOUR[1..][1..]) == (Own(c, SvcStep) && OwnTimeouts(d, FOUR[1..][1..][1..]));
    assert OwnTimeouts(d, FOUR[1..][1..][1..]) == (Own(d, SvcStep) && OwnTimeouts(Service(d), []));
  }

  // Exactly the schedules that never start a timer over an unhandled timeout
  // keep every timeout, then and in the service's next four steps, to its own
  // event.
  lemma {:induction false} TimeoutExactly(s: State, steps: seq<Step>)
    requires TimerInv(s)
    ensures AllOwn(s, steps) <==> FreshStarts(s, steps)
    decreases |steps|
  {
    assert OwnTimeouts(s, FOUR) by {
      ClearRuns(s, FOUR);
    }
    if steps != [] {
      var e := Next(s, steps[0]);
      if FreshStart(s, steps[0]) {
        TimerStep(s, steps[0]);
        TimeoutExactly(e, steps[1..]);
      } else {
        StaleShows(s);
        assert !AllOwn(e, steps[1..]);
      }
    }
  }

  // From start-up: timeouts keep to their events exactly along the fresh
  // schedules, and after such a schedule the next timeout still does.
  lemma TimeoutsFromStart(s: State, steps: seq<Step>)
    requires Initial(s)
    ensures AllOwn(s, steps) <==> FreshStarts(s, steps)
    ensures FreshStarts(s, steps) ==> Own(Run(s, steps), SvcStep) && OwnTimeouts(Run(s, steps), FOUR)
  {
    hide Next;
    InitialTimer(s);
    TimeoutExactly(s, steps);
    if FreshStarts(s, steps) {
      OnlyOwnTimeouts(s, steps);
      ClearRuns(Run(s, steps), FOUR);
    }
  }

  // ------------------------------------------------------- runs from start-up

  function Times(n: nat): seq<Step> {
    seq(n, i => SvcStep)
  }

  lemma RunTimes(s: State, n: nat)
    ensures Run(s, Times(n)) == ServiceTimes(s, n)
  {
    RunServices(s, Times(n));
  }

  function EnqueueSteps(t: Tid, sci: nat): seq<Step> {
    [ProdCheckEn(t, sci), ProdCheckPwr(t), ProdPut(t), ProdPost(t)]
  }

  const READ: seq<Step> := [ReadStop, ReadClear, ReadLower, ReadPost]

  lemma Times8(s: State)
    ensures ServiceTimes(s, 8) == Service(Service(Service(Service(Service(Service(Service(Service(s))))))))
  {
    hide Service;
    V.Times4(s);
    V.Times4(Service(Service(Service(Service(s)))));
    V.TimesAdd(s, 4, 4);
  }

  // A service woken to publish, up to the point where it starts the timer.
  lemma ToStart(s: State)
    requires s.svc == Woke(false, true) && NotifyAllowed(s) && s.m.buf == NONE && |s.m.queue| > 0
    ensures var e := ServiceTimes(s, 8);
      && e.svc == StartTimer && e.m.buf == s.m.queue[0] && e.m.line && e.m.timeout == s.m.timeout
      && e.log.published == s.log.published + 1 && e.log.firedFor == s.log.firedFor && e.log.armedFor == s.log.armedFor
  {
    Times8(s);
    ToBufFree(s);
    hide Service;
    BufFreeToStart(Service(Service(Service(Service(Service(s))))));
  }

  lemma ToBufFree(s: State)
    requires s.svc == Woke(false, true) && NotifyAllowed(s) && s.m.buf == NONE
    ensures Service(Service(Service(Service(Service(s)))))
         == s.(m := s.m.(notify := false, pwr := false), svc := BufFree)
  {
    hide AllDropped;
    var c := Service(Service(s));
    assert c == s.(m := s.m.(notify := false, pwr := false), svc := Cleared);
  }

  lemma BufFreeToStart(s: State)
    requires s.svc.BufFree? && |s.m.queue| > 0
    ensures Service(Service(Service(s)))
         == s.(m := s.m.(buf := s.m.queue[0], queue := s.m.queue[1..], line := true), svc := StartTimer,
               log := s.log.(published := s.log.published + 1))
  {
    hide AllDropped;
  }

  // One event queued and the service idle: its turn publishes the event.
  lemma TurnPublishes(s: State) returns (n: nat)
    requires s.svc.Waiting? && NotifyAllowed(s) && s.m.notify && !s.m.timeout && s.m.buf == NONE && |s.m.queue| == 1
    requires s.log.purged == []
    ensures ServiceTimes(s, n)
         == s.(m := s.m.(notify := false, pwr := false, buf := s.m.queue[0], queue := [], line := true, armed := true),
               svc := Waiting, log := s.log.(published := s.log.published + 1, armedFor := s.log.published + 1))
  {
    n := V.TurnIsSteps(s);
    assert s.m.queue[1..] == [];
  }

  lemma Enqueues(s: State, t: Tid, sci: nat)
    requires t in s.producers && s.producers[t].Away? && NotifyAllowed(s) && sci != NONE && |s.m.queue| < SCI_LEN
    ensures Run(s, EnqueueSteps(t, sci))
         == s.(m := s.m.(queue := s.m.queue + [sci], notify := true),
               log := s.log.(accepted := s.log.accepted + [sci]))
  {
    hide Run;
    V.EnqueueIsSteps(s, t, sci);
  }

  // From start-up to a published event whose timer is running.
  lemma FirstEvent(s: State, t: Tid, sci: nat) returns (steps: seq<Step>)
    requires Initial(s) && NotifyAllowed(s) && t in s.producers && sci != NONE
    ensures Run(s, steps)
         == s.(m := s.m.(buf := sci, line := true, armed := true),
               log := s.log.(accepted := [sci], published := 1, armedFor := 1))
  {
    Enqueues(s, t, sci);
    hide Run;
    var s1 := Run(s, EnqueueSteps(t, sci));
    var n := TurnPublishes(s1);
    RunTimes(s1, n);
    RunConcat(s, EnqueueSteps(t, sci), Times(n));
    steps := EnqueueSteps(t, sci) + Times(n);
  }

  // The timer of a first event fires just after the service woke for a second
  // one, and the host reads the first before the service goes on.
  function LateTimeout(t: Tid, sci: nat): seq<Step> {
    EnqueueSteps(t, sci) + [SvcStep, TimerFires] + READ + Times(8)
  }

  lemma ReadsPending(s: State)
    requires s.acpi.Free?
    ensures var e := Run(s, READ);
      && e.m == s.m.(armed := false, buf := NONE, line := false, notify := true)
      && e.svc == s.svc && e.log.published == s.log.published
      && e.log.firedFor == s.log.firedFor && e.log.armedFor == s.log.armedFor
  {
    hide Run;
    hide AllDelivered;
    hide Pend;
    V.GetIsSteps(s);
  }

  lemma LateTimeoutRuns(s: State, t: Tid, sci: nat)
    requires s.svc.Waiting? && s.acpi.Free? && NotifyAllowed(s)
    requires t in s.producers && s.producers[t].Away? && sci != NONE
    requires s.m.queue == [] && s.m.armed && !s.m.timeout && s.log.armedFor == s.log.published
    ensures var e := Run(s, LateTimeout(t, sci));
      && TimerInv(e) && e.svc == StartTimer && e.m.timeout && e.m.buf == sci && e.m.line
  {
    hide AllDelivered;
    Enqueues(s, t, sci);
    var s1 := Run(s, EnqueueSteps(t, sci));
    var s2 := Next(s1, SvcStep);
    var s3 := Next(s2, TimerFires);
    assert [SvcStep, TimerFires][1..] == [TimerFires];
    assert Run(s1, [SvcStep, TimerFires]) == Run(s2, [TimerFires]) == s3;
    hide Run;
    ReadsPending(s3);
    var s4 := Run(s3, READ);
    ToStart(s4);
    RunTimes(s4, 8);
    RunConcat(s, EnqueueSteps(t, sci), [SvcStep, TimerFires]);
    RunConcat(s, EnqueueSteps(t, sci) + [SvcStep, TimerFires], READ);
    RunConcat(s, EnqueueSteps(t, sci) + [SvcStep, TimerFires] + READ, Times(8));
  }

  // So from start-up a stale timeout does lower a later event's line, which
  // then stays pending with the line low.
  lemma StaleTimeoutRun(s: State, t: Tid) returns (steps: seq<Step>)
    requires Initial(s) && NotifyAllowed(s) && t in s.producers
    ensures var e := Run(s, steps);
      && !Own(e, SvcStep) && e.m.line && e.m.buf != NONE
      && Next(e, SvcStep).m == e.m.(line := false)
  {
    var first := FirstEvent(s, t, 7);
    var s1 := Run(s, first);
    hide Run;
    hide Service;
    LateTimeoutRuns(s1, t, 9);
    var s2 := Run(s1, LateTimeout(t, 9));
    StaleStartLowers(s2);
    V.Times4(s2);
    RunTimes(s2, 4);
    RunConcat(s, first, LateTimeout(t, 9));
    RunConcat(s, first + LateTimeout(t, 9), Times(4));
    steps := first + LateTimeout(t, 9) + Times(4);
  }

  // ------------------------------------------------------------ the late read

  // A read lowers the line between the service's filling of the slot, which
  // that read has emptied, and its raising of the line.
  predicate LowersEarly(s: State, step: Step) {
    step.ReadLower? && s.acpi.ReadCleared? && s.svc.Raise? && s.m.buf == NONE
  }

  predicate NeverEarly(s: State, steps: seq<Step>)
    decreases |steps|
  {
    steps != [] ==> !LowersEarly(s, steps[0]) && NeverEarly(Next(s, steps[0]), steps[1..])
  }

  predicate WindowOk(s: State) {
    s.svc.Raise? && s.m.buf == NONE ==> s.acpi.ReadCleared?
  }

  // The line is high only for a reason, now and after the service's next
  // step, at every point of the schedule.
  predicate LineSafe(s: State, steps: seq<Step>)
    decreases |steps|
  {
    LineOk(s) && LineOk(Service(s)) && (steps != [] ==> LineSafe(Next(s, steps[0]), steps[1..]))
  }

  lemma WindowStep(s: State, step: Step)
    requires Conserved(s) && WindowOk(s)
    ensures WindowOk(Next(s, step)) <==> !LowersEarly(s, step)
  {
    ConservedHas(s);
    hide Conserved;
    hide AllDelivered;
    hide Pend;
    if step.SvcStep? {
      WindowServed(s);
    } else {
      hide Service;
    }
  }

  lemma WindowServed(s: State)
    requires SlotsOk(s)
    ensures WindowOk(Service(s))
  {
    hide AllDropped;
    hide Pend;
  }

  // The schedules that keep the line honest are exactly those in which no read
  // lowers it inside that window.
  lemma {:induction false} LineBySchedule(s: State, steps: seq<Step>)
    requires Conserved(s) && LineOk(s) && WindowOk(s)
    ensures LineSafe(s, steps) <==> NeverEarly(s, steps)
    decreases |steps|
  {
    ConservedHas(s);
    LineServiceExactly(s);
    hide Conserved;
    hide LineOk;
    if steps != [] {
      var e := Next(s, steps[0]);
      WindowStep(s, steps[0]);
      LineStepExactly(s, steps[0]);
      StepConserves(s, steps[0]);
      if WindowOk(e) {
        LineBySchedule(e, steps[1..]);
      } else {
        ConservedHas(e);
        LineServiceExactly(e);
      }
    }
  }

  // The line is high for nothing: no event anywhere, and no flush under way.
  predicate Stuck(s: State) {
    && s.m.line && s.m.buf == NONE && s.m.queue == [] && NotifyAllowed(s)
    && (s.svc.Waiting? || s.svc.Woke? || s.svc.InTimeout? || s.svc.PastTimeout?
        || s.svc.Cleared? || s.svc.SawEn? || s.svc.Allowed? || s.svc.BufFree?)
  }

  // No new event, nothing that forbids notification, and no read gets as far
  // as lowering the line.
  predicate Calm(step: Step) {
    && !step.ReadLower? && !step.ProdPut?
    && (step.SetEnable? ==> step.en)
    && (step.PowerAssign? ==> step.power == PWR_S0 || step.power == PWR_MS)
  }

  // Only a read lowers a line stuck high; the timer still running does not.
  lemma StuckStep(s: State, step: Step)
    requires Stuck(s)
    ensures !Next(s, step).m.line <==> step.ReadLower? && s.acpi.ReadCleared?
    ensures Calm(step) ==> Stuck(Next(s, step))
  {
    hide AllDelivered;
    hide AllDropped;
    hide Pend;
  }

  lemma {:induction false} StuckStays(s: State, steps: seq<Step>)
    requires Stuck(s) && forall x :: x in steps ==> Calm(x)
    ensures Stuck(Run(s, steps))
    decreases |steps|
  {
    hide Stuck;
    hide Next;
    hide Calm;
    if steps != [] {
      assert steps[0] in steps && forall x :: x in steps[1..] ==> x in steps;
      StuckStep(s, steps[0]);
      StuckStays(Next(s, steps[0]), steps[1..]);
    }
  }

  // From start-up one event and one read in the window leave the line stuck,
  // whatever calm steps follow, the expiry of the timer among them.
  lemma LateReadRun(s: State, t: Tid, more: seq<Step>) returns (steps: seq<Step>)
    requires Initial(s) && NotifyAllowed(s) && t in s.producers
    requires forall x :: x in more ==> Calm(x)
    ensures Stuck(Run(s, steps)) && Stuck(Run(s, steps + more))
  {
    hide Run;
    var early := WindowRun(s, t);
    var s1 := Run(s, early);
    LateReadSticks(s1);
    steps := early + LATE_READ;
    RunConcat(s, early, LATE_READ);
    RunConcat(s, steps, more);
    hide Stuck;
    StuckStays(Run(s, steps), more);
  }

  lemma WindowRun(s: State, t: Tid) returns (steps: seq<Step>)
    requires Initial(s) && NotifyAllowed(s) && t in s.producers
    ensures InWindow(Run(s, steps)) && Run(s, steps).producers == s.producers
  {
    Enqueues(s, t, 7);
    hide Run;
    var s1 := Run(s, EnqueueSteps(t, 7));
    WindowReached(s1);
    Times8(s1);
    hide Service;
    RunTimes(s1, 8);
    var s2 := Run(s1, Times(8));
    RunOne(s2, ReadStop);
    steps := EnqueueSteps(t, 7) + Times(8) + [ReadStop];
    RunConcat(s, EnqueueSteps(t, 7), Times(8));
    RunConcat(s, EnqueueSteps(t, 7) + Times(8), [ReadStop]);
  }
}

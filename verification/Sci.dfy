/**
 The SCI notification protocol (`service/sci/service.c`) at the grain of single
 shared accesses.  Producers on any number of threads, the ACPI thread that
 sets the enable flag and reads events, the power service, the one-shot timer
 and the service thread interleave freely.  A step that is not enabled leaves
 the state alone, so any list of steps is a schedule.
 */
module Sci {
  type Tid = nat

  // CONFIG_ACPI_SCI_QUEUE_LEN
  const SCI_LEN: nat := 16
  const NONE: nat := 0
  const PWR_S0: nat := 1
  const PWR_MS: nat := 2

  // A thread inside `sci_enque`.
  datatype Producer = Away | SawEnabled(sci: nat) | SawPower(sci: nat) | OwesPost

  // The ACPI thread inside `acpi_sci_enable_set` or `acpi_sci_get`.
  datatype Acpi = Free | EnableStored | ReadStopped | ReadCleared(got: nat) | ReadLowered(got: nat)

  datatype Power = Settled | Assigned

  // The service thread; `n` says whether the wakeup included NOTIFY or the
  // power bit.
  datatype Svc =
    | Waiting
    | Woke(t: bool, n: bool) | InTimeout(n: bool) | TimeoutLower(n: bool) | PastTimeout(n: bool)
    | Cleared | SawEn
    | FlushTimer | FlushQueue | FlushBuf | FlushLine
    | Allowed | BufFree | Holding(sci: nat) | Raise | StartTimer

  datatype Fate = Delivered(sci: nat) | Dropped(sci: nat)

  // sci_en, pwr_state, sci_queue, sci_buf, the interrupt line, sci_tmr and the
  // event bits.
  datatype Mem = Mem(
    en: bool, power: nat, queue: seq<nat>, buf: nat, line: bool, armed: bool,
    notify: bool, pwr: bool, timeout: bool)

  // History: what was accepted, what became of it in order, what a flush has
  // purged but not yet accounted for, what the host read; how many events were
  // published, and for which of them the timer was started and last fired.
  datatype Log = Log(
    accepted: seq<nat>, settled: seq<Fate>, purged: seq<nat>, answers: seq<nat>,
    published: nat, armedFor: nat, firedFor: nat)

  datatype State = State(m: Mem, producers: map<Tid, Producer>, acpi: Acpi, pmu: Power, svc: Svc, log: Log)

  datatype Step =
    | ProdCheckEn(t: Tid, sci: nat) | ProdCheckPwr(t: Tid) | ProdPut(t: Tid) | ProdPost(t: Tid)
    | SetEnable(en: bool) | PostEnable
    | ReadStop | ReadClear | ReadLower | ReadPost
    | PowerAssign(power: nat) | PowerPost
    | TimerFires
    | SvcStep

  predicate PwrAllow(s: State) {
    s.m.power == PWR_S0 || s.m.power == PWR_MS
  }

  predicate NotifyAllowed(s: State) {
    s.m.en && PwrAllow(s)
  }

  function Pend(sci: nat): seq<nat> {
    if sci == NONE then [] else [sci]
  }

  function AllDelivered(xs: seq<nat>): seq<Fate>
    decreases |xs|
  {
    if xs == [] then [] else [Delivered(xs[0])] + AllDelivered(xs[1..])
  }

  function AllDropped(xs: seq<nat>): seq<Fate>
    decreases |xs|
  {
    if xs == [] then [] else [Dropped(xs[0])] + AllDropped(xs[1..])
  }

  // ---------------------------------------------------------------- the steps

  function SetProducer(s: State, t: Tid, p: Producer): State {
    s.(producers := s.producers[t := p])
  }

  predicate ProducerThread(step: Step) {
    step.ProdCheckEn? || step.ProdCheckPwr? || step.ProdPut? || step.ProdPost?
  }

  function ProducerStep(s: State, step: Step): State
    requires ProducerThread(step)
  {
    if step.t !in s.producers then s
    else
      var p := s.producers[step.t];
      match step
      case ProdCheckEn(t, sci) =>
        if p.Away? && sci != NONE && s.m.en then SetProducer(s, t, SawEnabled(sci)) else s
      case ProdCheckPwr(t) =>
        if p.SawEnabled? then SetProducer(s, t, if PwrAllow(s) then SawPower(p.sci) else Away) else s
      case ProdPut(t) =>
        if !p.SawPower? then s
        else if |s.m.queue| >= SCI_LEN then SetProducer(s, t, Away)
        else
          SetProducer(s, t, OwesPost)
          .(m := s.m.(queue := s.m.queue + [p.sci]), log := s.log.(accepted := s.log.accepted + [p.sci]))
      case ProdPost(t) =>
        if p.OwesPost? then SetProducer(s, t, Away).(m := s.m.(notify := true)) else s
  }

  function Service(s: State): State {
    match s.svc
    case Waiting =>
      if s.m.notify || s.m.pwr || s.m.timeout then s.(svc := Woke(s.m.timeout, s.m.notify || s.m.pwr)) else s
    case Woke(t, n) => if t then s.(m := s.m.(timeout := false), svc := InTimeout(n)) else s.(svc := PastTimeout(n))
    case InTimeout(n) => s.(svc := if s.m.buf == NONE then PastTimeout(n) else TimeoutLower(n))
    case TimeoutLower(n) => s.(m := s.m.(line := false), svc := PastTimeout(n))
    case PastTimeout(n) =>
      if n then s.(m := s.m.(notify := false, pwr := false), svc := Cleared) else s.(svc := Waiting)
    case Cleared => s.(svc := if s.m.en then SawEn else FlushTimer)
    case SawEn => s.(svc := if PwrAllow(s) then Allowed else FlushTimer)
    case FlushTimer => s.(m := s.m.(armed := false), svc := FlushQueue)
    case FlushQueue =>
      s.(m := s.m.(queue := []), svc := FlushBuf, log := s.log.(purged := s.m.queue))
    case FlushBuf =>
      s.(m := s.m.(buf := NONE), svc := FlushLine,
         log := s.log.(settled := s.log.settled + AllDropped(Pend(s.m.buf)) + AllDropped(s.log.purged), purged := []))
    case FlushLine => s.(m := s.m.(line := false), svc := Waiting)
    case Allowed => s.(svc := if s.m.buf == NONE then BufFree else Waiting)
    case BufFree =>
      if s.m.queue == [] then s.(svc := Waiting)
      else
        s.(m := s.m.(queue := s.m.queue[1..]), svc := Holding(s.m.queue[0]),
           log := s.log.(published := s.log.published + 1))
    case Holding(sci) => s.(m := s.m.(buf := sci), svc := Raise)
    case Raise => s.(m := s.m.(line := true), svc := StartTimer)
    case StartTimer =>
      s.(m := s.m.(armed := true), svc := Waiting, log := s.log.(armedFor := s.log.published))
  }

  predicate AcpiThread(step: Step) {
    step.SetEnable? || step.PostEnable? || step.ReadStop? || step.ReadClear? || step.ReadLower? || step.ReadPost?
  }

  function AcpiStep(s: State, step: Step): State
    requires AcpiThread(step)
  {
    match step
    case SetEnable(en) => if s.acpi.Free? then s.(m := s.m.(en := en), acpi := EnableStored) else s
    case PostEnable => if s.acpi.EnableStored? then s.(m := s.m.(notify := true), acpi := Free) else s
    case ReadStop => if s.acpi.Free? then s.(m := s.m.(armed := false), acpi := ReadStopped) else s
    case ReadClear =>
      if !s.acpi.ReadStopped? then s
      else
        s.(m := s.m.(buf := NONE), acpi := ReadCleared(s.m.buf),
           log := s.log.(settled := s.log.settled + AllDelivered(Pend(s.m.buf))))
    case ReadLower => if s.acpi.ReadCleared? then s.(m := s.m.(line := false), acpi := ReadLowered(s.acpi.got)) else s
    case ReadPost =>
      if !s.acpi.ReadLowered? then s
      else s.(m := s.m.(notify := true), acpi := Free, log := s.log.(answers := s.log.answers + [s.acpi.got]))
  }

  function OtherStep(s: State, step: Step): State {
    match step
    case PowerAssign(p) => if s.pmu.Settled? then s.(m := s.m.(power := p), pmu := Assigned) else s
    case PowerPost => if s.pmu.Assigned? then s.(m := s.m.(pwr := true), pmu := Settled) else s
    case TimerFires =>
      if !s.m.armed then s
      else s.(m := s.m.(armed := false, timeout := true), log := s.log.(firedFor := s.log.armedFor))
    case _ => s
  }

  function Next(s: State, step: Step): State {
    if step.SvcStep? then Service(s)
    else if AcpiThread(step) then AcpiStep(s, step)
    else if ProducerThread(step) then ProducerStep(s, step)
    else OtherStep(s, step)
  }

  function Run(s: State, steps: seq<Step>): State
    decreases |steps|
  {
    if steps == [] then s else Run(Next(s, steps[0]), steps[1..])
  }

  predicate Initial(s: State) {
    && s.m.en && s.m.queue == [] && s.m.buf == NONE && !s.m.line && !s.m.armed
    && !s.m.notify && !s.m.pwr && !s.m.timeout
    && (forall t :: t in s.producers ==> s.producers[t] == Away)
    && s.acpi == Free && s.pmu == Settled && s.svc == Waiting
    && s.log.accepted == [] && s.log.settled == [] && s.log.purged == [] && s.log.answers == []
    && s.log.published == 0 && s.log.armedFor == 0 && s.log.firedFor == 0
  }

  // ------------------------------------------------------------- conservation

  function Events(fs: seq<Fate>): seq<nat>
    decreases |fs|
  {
    if fs == [] then [] else [fs[0].sci] + Events(fs[1..])
  }

  function DeliveredOf(fs: seq<Fate>): seq<nat>
    decreases |fs|
  {
    if fs == [] then []
    else (if fs[0].Delivered? then [fs[0].sci] else []) + DeliveredOf(fs[1..])
  }

  // The codes a host collects, skipping reads that found nothing.
  function Codes(answers: seq<nat>): seq<nat>
    decreases |answers|
  {
    if answers == [] then [] else Pend(answers[0]) + Codes(answers[1..])
  }

  // The event the service thread carries between queue and slot, and the one
  // the ACPI thread carries between slot and response.
  function InService(s: State): seq<nat> {
    if s.svc.Holding? then [s.svc.sci] else []
  }

  function InAnswer(s: State): seq<nat> {
    if s.acpi.ReadCleared? || s.acpi.ReadLowered? then Pend(s.acpi.got) else []
  }

  predicate NoneQueued(q: seq<nat>) {
    forall i :: 0 <= i < |q| ==> q[i] != NONE
  }

  predicate ProducersOk(s: State) {
    forall t :: t in s.producers && (s.producers[t].SawEnabled? || s.producers[t].SawPower?) ==>
      s.producers[t].sci != NONE
  }

  predicate Conserved(s: State) {
    && s.log.accepted == Events(s.log.settled) + Pend(s.m.buf) + InService(s) + s.log.purged + s.m.queue
    && Codes(s.log.answers) + InAnswer(s) == DeliveredOf(s.log.settled)
    && |s.m.queue| <= SCI_LEN && NoneQueued(s.m.queue) && ProducersOk(s)
    && (s.log.purged != [] ==> s.svc.FlushBuf?)
    && (s.svc.BufFree? || s.svc.Holding? ==> s.m.buf == NONE)
    && (s.svc.Holding? ==> s.svc.sci != NONE)
  }

  lemma EventsConcat(a: seq<Fate>, b: seq<Fate>)
    ensures Events(a + b) == Events(a) + Events(b)
    ensures DeliveredOf(a + b) == DeliveredOf(a) + DeliveredOf(b)
  {
    hide Events;
    hide DeliveredOf;
    AllConcat(a, b);
    DeliveredConcat(a, b);
  }

  lemma {:induction false} AllConcat(a: seq<Fate>, b: seq<Fate>)
    ensures Events(a + b) == Events(a) + Events(b)
    decreases |a|
  {
    hide DeliveredOf;
    if a == [] {
      assert a + b == b;
    } else {
      assert (a + b)[1..] == a[1..] + b;
      AllConcat(a[1..], b);
      assert Events(a + b) == [a[0].sci] + Events(a[1..] + b);
    }
  }

  lemma {:induction false} DeliveredConcat(a: seq<Fate>, b: seq<Fate>)
    ensures DeliveredOf(a + b) == DeliveredOf(a) + DeliveredOf(b)
    decreases |a|
  {
    hide Events;
    if a == [] {
      assert a + b == b;
    } else {
      assert (a + b)[1..] == a[1..] + b;
      DeliveredConcat(a[1..], b);
      var first := if a[0].Delivered? then [a[0].sci] else [];
      assert DeliveredOf(a + b) == first + DeliveredOf(a[1..] + b);
    }
  }

  lemma {:induction false} CodesConcat(a: seq<nat>, b: seq<nat>)
    ensures Codes(a + b) == Codes(a) + Codes(b)
    decreases |a|
  {
    if a == [] {
      assert a + b == b;
    } else {
      assert (a + b)[1..] == a[1..] + b;
      CodesConcat(a[1..], b);
    }
  }

  lemma {:induction false} DroppedEvents(xs: seq<nat>)
    ensures Events(AllDropped(xs)) == xs && DeliveredOf(AllDropped(xs)) == []
    decreases |xs|
  {
    if xs != [] {
      DroppedEvents(xs[1..]);
      assert AllDropped(xs)[1..] == AllDropped(xs[1..]);
    }
  }

  lemma {:induction false} DeliveredEvents(xs: seq<nat>)
    ensures Events(AllDelivered(xs)) == xs && DeliveredOf(AllDelivered(xs)) == xs
    decreases |xs|
  {
    if xs != [] {
      DeliveredEvents(xs[1..]);
      assert AllDelivered(xs)[1..] == AllDelivered(xs[1..]);
    }
  }

  lemma PendOnce(x: nat)
    ensures Codes([x]) == Pend(x)
  {
    assert Codes([x][1..]) == [];
  }

  lemma FlushConserves(s: State)
    requires Conserved(s) && s.svc.FlushBuf?
    ensures Conserved(Service(s))
  {
    hide Codes;
    hide Events;
    hide DeliveredOf;
    hide AllDropped;
    EventsConcat(s.log.settled + AllDropped(Pend(s.m.buf)), AllDropped(s.log.purged));
    EventsConcat(s.log.settled, AllDropped(Pend(s.m.buf)));
    DroppedEvents(Pend(s.m.buf));
    DroppedEvents(s.log.purged);
    assert s.log.accepted == Events(Service(s).log.settled) + s.m.queue;
  }

  lemma TakeConserves(s: State)
    requires Conserved(s) && (s.svc.BufFree? || s.svc.Holding? || s.svc.FlushQueue?)
    ensures Conserved(Service(s))
  {
    hide Codes;
    hide Events;
    hide DeliveredOf;
    if s.svc.BufFree? {
      BufFreeConserves(s);
    }
  }

  lemma BufFreeConserves(s: State)
    requires Conserved(s) && s.svc.BufFree?
    ensures Conserved(Service(s))
  {
    hide Codes;
    hide Events;
    hide DeliveredOf;
    if s.m.queue != [] {
      assert s.m.queue == [s.m.queue[0]] + s.m.queue[1..];
      assert s.log.accepted == Events(s.log.settled) + [s.m.queue[0]] + s.m.queue[1..];
    }
  }

  lemma ServiceConserves(s: State)
    requires Conserved(s)
    ensures Conserved(Service(s))
  {
    hide Codes;
    hide Events;
    hide DeliveredOf;
    hide AllDropped;
    if s.svc.FlushBuf? {
      FlushConserves(s);
    } else if s.svc.BufFree? || s.svc.Holding? || s.svc.FlushQueue? {
      TakeConserves(s);
    } else {
      OthersConserve(s);
    }
  }

  // A step that moves no event conserves them.
  predicate NothingMoved(s: State, e: State) {
    && e.log.accepted == s.log.accepted && e.log.settled == s.log.settled
    && e.m.queue == s.m.queue && e.m.buf == s.m.buf
    && e.log.purged == s.log.purged && e.log.answers == s.log.answers
    && InService(e) == InService(s) && InAnswer(e) == InAnswer(s) && e.producers == s.producers
  }

  predicate SlotsOk(s: State) {
    && (s.log.purged != [] ==> s.svc.FlushBuf?)
    && (s.svc.BufFree? || s.svc.Holding? ==> s.m.buf == NONE)
    && (s.svc.Holding? ==> s.svc.sci != NONE)
  }

  lemma ConservedHas(s: State)
    requires Conserved(s)
    ensures SlotsOk(s)
  {
    hide Codes;
    hide Events;
    hide DeliveredOf;
  }

  lemma ProducersKept(s: State, e: State)
    requires e.producers == s.producers
    ensures ProducersOk(e) <==> ProducersOk(s)
  {
  }

  lemma NothingMovedConserves(s: State, e: State)
    requires Conserved(s) && NothingMoved(s, e) && SlotsOk(e)
    ensures Conserved(e)
  {
    hide Codes;
    hide Events;
    hide DeliveredOf;
    hide InService;
    hide InAnswer;
    hide Pend;
    hide NoneQueued;
    assert ProducersOk(e);
  }

  lemma OthersConserve(s: State)
    requires Conserved(s) && !s.svc.FlushBuf? && !s.svc.BufFree? && !s.svc.Holding? && !s.svc.FlushQueue?
    ensures Conserved(Service(s))
  {
    hide Conserved;
    hide AllDropped;
    ConservedHas(s);
    match s.svc
    case Waiting => NothingMovedConserves(s, Service(s));
    case PastTimeout(_) => NothingMovedConserves(s, Service(s));
    case Allowed => NothingMovedConserves(s, Service(s));
    case _ => NothingMovedConserves(s, Service(s));
  }

  lemma SameCarried(s: State, e: State)
    requires e.svc == s.svc && e.acpi == s.acpi
    ensures InService(e) == InService(s) && InAnswer(e) == InAnswer(s)
  {
  }

  lemma ProducerConserves(s: State, step: Step)
    requires Conserved(s) && ProducerThread(step)
    ensures Conserved(ProducerStep(s, step))
  {
    hide Codes;
    hide Events;
    hide DeliveredOf;
    hide Pend;
    hide InService;
    hide InAnswer;
    var e := ProducerStep(s, step);
    assert InService(e) == InService(s) && InAnswer(e) == InAnswer(s) by {
      SameCarried(s, e);
    }
    if step.ProdPut? && e.m.queue != s.m.queue {
      Appends(Events(s.log.settled) + Pend(s.m.buf) + InService(s) + s.log.purged, s.m.queue, s.producers[step.t].sci);
    }
  }

  lemma Appends(a: seq<nat>, q: seq<nat>, x: nat)
    ensures a + q + [x] == a + (q + [x])
  {
  }

  lemma ReadConserves(s: State, step: Step)
    requires Conserved(s) && (step.ReadClear? || step.ReadPost?)
    ensures Conserved(AcpiStep(s, step))
  {
    hide Codes;
    hide Events;
    hide DeliveredOf;
    hide AllDelivered;
    if step.ReadClear? && s.acpi.ReadStopped? {
      EventsConcat(s.log.settled, AllDelivered(Pend(s.m.buf)));
      DeliveredEvents(Pend(s.m.buf));
    }
    if step.ReadPost? && s.acpi.ReadLowered? {
      CodesConcat(s.log.answers, [s.acpi.got]);
      PendOnce(s.acpi.got);
    }
  }

  lemma AcpiConserves(s: State, step: Step)
    requires Conserved(s) && AcpiThread(step)
    ensures Conserved(AcpiStep(s, step))
  {
    hide Conserved;
    if step.ReadClear? || step.ReadPost? {
      ReadConserves(s, step);
    } else {
      ConservedHas(s);
      NothingMovedConserves(s, AcpiStep(s, step));
    }
  }

  lemma StepConserves(s: State, step: Step)
    requires Conserved(s)
    ensures Conserved(Next(s, step))
  {
    hide Conserved;
    hide Service;
    hide ProducerStep;
    hide AcpiStep;
    if step.SvcStep? {
      ServiceConserves(s);
    } else if AcpiThread(step) {
      AcpiConserves(s, step);
    } else if ProducerThread(step) {
      ProducerConserves(s, step);
    } else {
      ConservedHas(s);
      NothingMovedConserves(s, Next(s, step));
    }
  }

  // In every schedule the accepted events, in order, are those settled, the
  // one pending, the one in the service's hands, those a flush is dropping and
  // those queued; the host has read exactly the delivered ones, each once.
  lemma {:induction false} Conservation(s: State, steps: seq<Step>)
    requires Conserved(s)
    ensures Conserved(Run(s, steps))
    decreases |steps|
  {
    hide Conserved;
    hide Next;
    if steps != [] {
      StepConserves(s, steps[0]);
      Conservation(Next(s, steps[0]), steps[1..]);
    }
  }

  lemma InitiallyConserved(s: State)
    requires Initial(s)
    ensures Conserved(s)
  {
  }

  // With no flush, what the host has read, what is in hand and what is queued
  // make up everything accepted, in order.
  lemma {:induction false} NothingDropped(fs: seq<Fate>)
    requires forall x :: x in fs ==> x.Delivered?
    ensures DeliveredOf(fs) == Events(fs)
    decreases |fs|
  {
    if fs != [] {
      assert fs[0] in fs;
      NothingDropped(fs[1..]);
    }
  }

  lemma DeliveredInOrder(s: State, steps: seq<Step>)
    requires Initial(s)
    ensures var e := Run(s, steps);
      (forall x :: x in e.log.settled ==> x.Delivered?) && e.log.purged == [] ==>
        e.log.accepted == Codes(e.log.answers) + InAnswer(e) + Pend(e.m.buf) + InService(e) + e.m.queue
  {
    hide Codes;
    hide Pend;
    InitiallyConserved(s);
    Conservation(s, steps);
    var e := Run(s, steps);
    if forall x :: x in e.log.settled ==> x.Delivered? {
      NothingDropped(e.log.settled);
    }
  }

  // -------------------------------------------------------------- quiescence

  // Some thread has changed what the service looks at and not yet told it.
  ghost predicate Owed(s: State) {
    || (exists t :: t in s.producers && s.producers[t].OwesPost?)
    || s.acpi.EnableStored? || s.acpi.ReadCleared? || s.acpi.ReadLowered?
    || s.pmu.Assigned?
  }

  ghost predicate Dirty(s: State) {
    s.m.notify || s.m.pwr || Owed(s)
  }

  // What must hold once everything has been told and handled.
  predicate Quiescent(s: State) {
    if NotifyAllowed(s) then s.m.queue == [] || s.m.buf != NONE
    else s.m.queue == [] && s.m.buf == NONE && !s.m.line
  }

  // What the service thread has seen so far and nothing has changed since.
  predicate StillTrue(s: State) {
    match s.svc
    case Waiting => Quiescent(s)
    case Woke(_, n) => !n && Quiescent(s)
    case InTimeout(n) => !n && Quiescent(s)
    case TimeoutLower(n) => !n && Quiescent(s)
    case PastTimeout(n) => !n && Quiescent(s)
    case Cleared => true
    case SawEn => s.m.en
    case FlushTimer => !NotifyAllowed(s)
    case FlushQueue => !NotifyAllowed(s)
    case FlushBuf => !NotifyAllowed(s) && s.m.queue == []
    case FlushLine => !NotifyAllowed(s) && s.m.queue == [] && s.m.buf == NONE
    case Allowed => NotifyAllowed(s)
    case BufFree => NotifyAllowed(s)
    case Holding(sci) => NotifyAllowed(s) && sci != NONE
    case Raise => NotifyAllowed(s) && s.m.buf != NONE
    case StartTimer => NotifyAllowed(s) && s.m.buf != NONE
  }

  // A wakeup that saw NOTIFY leaves the bit up until it is cleared, before
  // anything is looked at.
  predicate BitHeld(s: State) {
    match s.svc
    case Woke(_, n) => n ==> s.m.notify || s.m.pwr
    case InTimeout(n) => n ==> s.m.notify || s.m.pwr
    case TimeoutLower(n) => n ==> s.m.notify || s.m.pwr
    case PastTimeout(n) => n ==> s.m.notify || s.m.pwr
    case _ => true
  }

  ghost predicate Told(s: State) {
    BitHeld(s) && NoneQueued(s.m.queue) && ProducersOk(s) && (Dirty(s) || StillTrue(s))
  }

  predicate Flushing(v: Svc) {
    v.FlushTimer? || v.FlushQueue? || v.FlushBuf? || v.FlushLine?
  }

  predicate Awake(v: Svc) {
    v.Waiting? || v.Woke? || v.InTimeout? || v.TimeoutLower? || v.PastTimeout?
  }

  lemma AwakeTold(s: State)
    requires Told(s) && Awake(s.svc)
    ensures Told(Service(s))
  {
    hide NoneQueued;
    var e := Service(s);
    ProducersKept(s, e);
  }

  lemma FlushTold(s: State)
    requires Told(s) && Flushing(s.svc)
    ensures Told(Service(s))
  {
    hide AllDropped;
    hide Pend;
    var e := Service(s);
    ProducersKept(s, e);
  }

  lemma TakeTold(s: State)
    requires Told(s) && (s.svc.BufFree? || s.svc.Holding?)
    ensures Told(Service(s))
  {
    var e := Service(s);
    ProducersKept(s, e);
  }

  lemma NotifyTold(s: State)
    requires Told(s) && !Awake(s.svc) && !Flushing(s.svc)
    ensures Told(Service(s))
  {
    if s.svc.BufFree? || s.svc.Holding? {
      TakeTold(s);
    } else {
      hide NoneQueued;
      var e := Service(s);
      ProducersKept(s, e);
      hide ProducersOk;
    }
  }

  lemma ServiceTold(s: State)
    requires Told(s)
    ensures Told(Service(s))
  {
    hide Told;
    hide Service;
    if Awake(s.svc) {
      AwakeTold(s);
    } else if Flushing(s.svc) {
      FlushTold(s);
    } else {
      NotifyTold(s);
    }
  }

  lemma ProducerTold(s: State, step: Step)
    requires Told(s) && ProducerThread(step)
    ensures Told(ProducerStep(s, step))
  {
    hide StillTrue;
    var e := ProducerStep(s, step);
    if e != s {
      assert forall t :: t in s.producers && t != step.t ==> e.producers[t] == s.producers[t];
      if step.ProdPut? && e.producers[step.t].OwesPost? {
        assert Owed(e);
      } else if !step.ProdPost? {
        assert e.m == s.m && e.svc == s.svc;
        assert Owed(s) ==> Owed(e);
        StillTrueLocal(s, e);
      }
    }
  }

  lemma StillTrueLocal(s: State, e: State)
    requires e.m == s.m && e.svc == s.svc
    ensures StillTrue(e) <==> StillTrue(s)
  {
  }

  lemma AcpiTold(s: State, step: Step)
    requires Told(s) && AcpiThread(step)
    ensures Told(AcpiStep(s, step))
  {
    hide AllDelivered;
    hide Pend;
    hide NoneQueued;
    var e := AcpiStep(s, step);
    ProducersKept(s, e);
    if step.ReadStop? {
      assert Owed(e) <==> Owed(s);
    }
  }

  lemma StepTold(s: State, step: Step)
    requires Told(s)
    ensures Told(Next(s, step))
  {
    hide Service;
    hide ProducerStep;
    hide AcpiStep;
    if step.SvcStep? {
      ServiceTold(s);
    } else if AcpiThread(step) {
      AcpiTold(s, step);
    } else if ProducerThread(step) {
      ProducerTold(s, step);
    } else {
      var e := Next(s, step);
      ProducersKept(s, e);
      hide ProducersOk;
      hide NoneQueued;
      assert step.TimerFires? ==> (Owed(e) <==> Owed(s));
    }
  }

  lemma {:induction false} RunTold(s: State, steps: seq<Step>)
    requires Told(s)
    ensures Told(Run(s, steps))
    decreases |steps|
  {
    hide Told;
    hide Next;
    if steps != [] {
      StepTold(s, steps[0]);
      RunTold(Next(s, steps[0]), steps[1..]);
    }
  }

  // No lost wakeup: under every interleaving, once the service thread waits
  // with no bit up and nobody owes it a post, either notification is allowed
  // and the queue is empty or an event is pending, or it is not and there is
  // no event anywhere and the line is low.
  lemma NoLostWakeup(s: State, steps: seq<Step>)
    requires Initial(s)
    ensures var e := Run(s, steps);
      e.svc.Waiting? && !Dirty(e) ==> Quiescent(e)
  {
    RunTold(s, steps);
  }

  // ---------------------------------------------------------------- the line

  // The line is high only while an event is pending, or about to be lowered.
  predicate LineOk(s: State) {
    s.m.line ==> s.m.buf != NONE || s.acpi.ReadCleared? || s.svc.FlushLine?
  }

  // The host does not empty the slot between the service filling it and
  // raising the line.
  predicate Polite(s: State, steps: seq<Step>)
    decreases |steps|
  {
    steps != [] ==> !(steps[0].ReadClear? && s.svc.Raise?) && Polite(Next(s, steps[0]), steps[1..])
  }

  predicate LineInv(s: State) {
    LineOk(s) && (s.svc.Raise? ==> s.m.buf != NONE)
  }

  lemma LineStep(s: State, step: Step)
    requires Conserved(s) && LineInv(s) && !(step.ReadClear? && s.svc.Raise?)
    ensures LineInv(Next(s, step))
  {
    hide AllDelivered;
    hide AllDropped;
    hide Events;
    hide Codes;
    hide DeliveredOf;
    ConservedHas(s);
    hide Conserved;
    if step.SvcStep? {
      LineService(s);
    }
  }

  lemma LineService(s: State)
    requires SlotsOk(s) && LineInv(s)
    ensures LineInv(Service(s))
  {
    hide AllDropped;
    hide Pend;
  }

  lemma {:induction false} LineMeansPending(s: State, steps: seq<Step>)
    requires Conserved(s) && LineInv(s) && Polite(s, steps)
    ensures LineInv(Run(s, steps))
    decreases |steps|
  {
    hide Conserved;
    hide LineInv;
    hide Next;
    if steps != [] {
      LineStep(s, steps[0]);
      StepConserves(s, steps[0]);
      LineMeansPending(Next(s, steps[0]), steps[1..]);
    }
  }

  // The event is still in the slot, or its reader about to lower the line,
  // when the service raises the line.
  predicate RaisedFull(s: State, step: Step) {
    step.SvcStep? && s.svc.Raise? ==> s.m.buf != NONE || s.acpi.ReadCleared?
  }

  predicate RaisesFull(s: State, steps: seq<Step>)
    decreases |steps|
  {
    steps != [] ==> RaisedFull(s, steps[0]) && RaisesFull(Next(s, steps[0]), steps[1..])
  }

  predicate LineAlwaysOk(s: State, steps: seq<Step>)
    decreases |steps|
  {
    LineOk(s) && (steps != [] ==> LineAlwaysOk(Next(s, steps[0]), steps[1..]))
  }

  lemma LineStepExactly(s: State, step: Step)
    requires Conserved(s) && LineOk(s)
    ensures LineOk(Next(s, step)) <==> RaisedFull(s, step)
  {
    hide AllDelivered;
    hide AllDropped;
    hide Events;
    hide Codes;
    hide DeliveredOf;
    ConservedHas(s);
    hide Pend;
    hide Conserved;
    if step.SvcStep? {
      LineServiceExactly(s);
    } else {
      hide Service;
    }
  }

  lemma LineServiceExactly(s: State)
    requires SlotsOk(s) && LineOk(s)
    ensures LineOk(Service(s)) <==> (s.svc.Raise? ==> s.m.buf != NONE || s.acpi.ReadCleared?)
  {
    hide AllDropped;
    hide Pend;
  }

  // The line is high for a reason all along a schedule if and only if it is
  // never raised over a slot a reader has already emptied and finished with.
  lemma {:induction false} LineExactly(s: State, steps: seq<Step>)
    requires Conserved(s) && LineOk(s)
    ensures LineAlwaysOk(s, steps) <==> RaisesFull(s, steps)
    decreases |steps|
  {
    hide Conserved;
    hide LineOk;
    hide RaisedFull;
    hide Next;
    if steps != [] {
      LineStepExactly(s, steps[0]);
      StepConserves(s, steps[0]);
      if LineOk(Next(s, steps[0])) {
        LineExactly(Next(s, steps[0]), steps[1..]);
      }
    }
  }

  lemma {:induction false} RunConcat(s: State, a: seq<Step>, b: seq<Step>)
    ensures Run(s, a + b) == Run(Run(s, a), b)
    decreases |a|
  {
    hide Next;
    if a == [] {
      assert a + b == b;
    } else {
      assert (a + b)[1..] == a[1..] + b;
      RunConcat(Next(s, a[0]), a[1..], b);
    }
  }

  lemma RunOne(s: State, step: Step)
    ensures Run(s, [step]) == Next(s, step)
  {
    hide Next;
    assert [step][1..] == [];
  }

  lemma RunAt(s: State, steps: seq<Step>, i: nat)
    requires i < |steps|
    ensures Run(s, steps[i..]) == Run(Next(s, steps[i]), steps[i + 1..])
  {
    hide Next;
    assert steps[i..][1..] == steps[i + 1..];
  }

  // The read that slips into the window, then the service finishing and
  // handling the read's own post.
  const LATE_READ: seq<Step> :=
    [ReadClear, ReadLower, ReadPost, SvcStep, SvcStep, SvcStep, SvcStep, SvcStep, SvcStep, SvcStep, SvcStep, SvcStep]

  predicate InWindow(s: State) {
    && s.svc.Raise? && s.acpi.ReadStopped? && s.pmu.Settled? && NotifyAllowed(s) && s.m.queue == [] && !s.m.timeout
    && s.m.buf != NONE
  }

  lemma WindowRead(s: State)
    requires InWindow(s)
    ensures var e := Next(Next(Next(s, ReadClear), ReadLower), ReadPost);
      && e.svc.Raise? && e.acpi.Free? && e.pmu.Settled? && e.producers == s.producers
      && e.m == s.m.(buf := NONE, line := false, notify := true)
  {
    hide Service;
    hide ProducerStep;
    hide AllDelivered;
  }

  lemma WindowService(s: State)
    requires s.svc.Raise? && s.m.notify && !s.m.timeout && NotifyAllowed(s) && s.m.queue == [] && s.m.buf == NONE
    ensures var w := Service(Service(s));
      var e := Service(Service(Service(Service(Service(Service(Service(w)))))));
      && e.svc.Waiting? && e.m == s.m.(line := true, armed := true, notify := false, pwr := false)
      && e.producers == s.producers && e.acpi == s.acpi && e.pmu == s.pmu
  {
    hide AllDropped;
    var w := Service(Service(s));
    assert w.svc == Waiting && w.m == s.m.(line := true, armed := true);
    var w2 := Service(Service(Service(w)));
    assert w2.svc == Cleared && w2.m == w.m.(notify := false, pwr := false);
    var w3 := Service(Service(w2));
    assert w3.svc == Allowed && w3.m == w2.m;
    var w4 := Service(Service(w3));
    assert w4.svc == Waiting && w4.m == w3.m;
  }

  // In the excluded schedules the claim does fail: whenever a read slips into
  // the window, the line ends up high with nothing pending, nothing queued, no
  // bit up and nobody owing a post.
  lemma LateReadSticks(s: State)
    requires InWindow(s) && forall t :: t in s.producers ==> s.producers[t].Away?
    ensures var e := Run(s, LATE_READ);
      e.m.line && e.m.buf == NONE && e.m.queue == [] && e.svc.Waiting? && !Dirty(e) && !LineOk(e) && NotifyAllowed(e)
  {
    hide Run;
    hide AllDelivered;
    hide Pend;
    var r := Next(Next(Next(s, ReadClear), ReadLower), ReadPost);
    WindowRead(s);
    assert LATE_READ[0..] == LATE_READ;
    RunAt(s, LATE_READ, 0);
    RunAt(Next(s, ReadClear), LATE_READ, 1);
    RunAt(Next(Next(s, ReadClear), ReadLower), LATE_READ, 2);
    hide Next;
    WindowService(r);
    RunNineServices(r);
    assert LATE_READ[3..] == NINE_SERVICES;
  }

  const NINE_SERVICES: seq<Step> := [SvcStep, SvcStep, SvcStep, SvcStep, SvcStep, SvcStep, SvcStep, SvcStep, SvcStep]

  function ServiceTimes(s: State, n: nat): State
    decreases n
  {
    if n == 0 then s else ServiceTimes(Service(s), n - 1)
  }

  lemma {:induction false} RunServices(s: State, steps: seq<Step>)
    requires forall x :: x in steps ==> x.SvcStep?
    ensures Run(s, steps) == ServiceTimes(s, |steps|)
    decreases |steps|
  {
    hide Service;
    if steps != [] {
      assert steps[0] in steps;
      RunServices(Service(s), steps[1..]);
    }
  }

  lemma RunNineServices(s: State)
    ensures Run(s, NINE_SERVICES)
         == Service(Service(Service(Service(Service(Service(Service(Service(Service(s)))))))))
  {
    hide Service;
    RunServices(s, NINE_SERVICES);
    var a := Service(Service(Service(s)));
    var b := Service(Service(Service(a)));
    ThreeTimes(s, 6);
    ThreeTimes(a, 3);
    ThreeTimes(b, 0);
  }

  lemma ThreeTimes(s: State, n: nat)
    ensures ServiceTimes(s, n + 3) == ServiceTimes(Service(Service(Service(s))), n)
    ensures ServiceTimes(s, 0) == s
  {
    hide Service;
    assert ServiceTimes(s, n + 3) == ServiceTimes(Service(s), n + 2);
    assert ServiceTimes(Service(s), n + 2) == ServiceTimes(Service(Service(s)), n + 1);
  }

  // The window is an ordinary point of an ordinary run: the service publishing
  // a queued event while the host has just begun a read.
  lemma WindowReached(s: State)
    requires s.svc.Waiting? && s.acpi.Free? && s.pmu.Settled? && NotifyAllowed(s) && s.m.notify && !s.m.timeout
    requires s.m.buf == NONE && |s.m.queue| == 1 && s.m.queue[0] != NONE
    ensures var w := Service(Service(Service(Service(Service(Service(Service(Service(s))))))));
      InWindow(Next(w, ReadStop)) && w.producers == s.producers
  {
    hide AllDropped;
    var s3 := Service(Service(Service(s)));
    assert s3.svc == Cleared && s3.m == s.m.(notify := false, pwr := false);
    assert s3.acpi == s.acpi && s3.pmu == s.pmu && s3.producers == s.producers;
    var s6 := Service(Service(Service(s3)));
    assert s6.svc == BufFree && s6.m == s3.m;
    assert s6.acpi == s.acpi && s6.pmu == s.pmu && s6.producers == s.producers;
    var s8 := Service(Service(s6));
    assert s8.svc == Raise && s8.m.buf == s.m.queue[0] && s8.m.queue == [];
  }
}

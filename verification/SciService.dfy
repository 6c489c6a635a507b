/**
 The SCI service with each call and each turn of the service loop run whole
 (`service/sci/service.c`), and what that grain adds: the line, the timer and
 the draining of the queue.
 */
module SciService {
  import opened Sci

  const EINVAL: int := -22
  const ENOMSG: int := -42

  datatype Whole = Whole(m: Mem, log: Log)

  predicate Allow(m: Mem) {
    m.en && (m.power == PWR_S0 || m.power == PWR_MS)
  }

  // ------------------------------------------------------------ specification

  function Enqueued(c: Whole, sci: nat): (Whole, int) {
    if sci == NONE then (c, EINVAL)
    else if !Allow(c.m) then (c, 0)
    else if |c.m.queue| >= SCI_LEN then (c, ENOMSG)
    else
      (Whole(c.m.(queue := c.m.queue + [sci], notify := true), c.log.(accepted := c.log.accepted + [sci])), 0)
  }

  // A producer's answer: the none code is an error, a full queue is one, and what
  // is disabled or out of the states S0 and modern standby is dropped with
  // success; the queue grows by the event only when none of these applies.
  lemma EnqueueAnswers(c: Whole, sci: nat)
    ensures var (e, ret) := Enqueued(c, sci); var open := c.m.en && (c.m.power == 1 || c.m.power == 2);
      && (ret == -22 <==> sci == 0) && (ret == ENOMSG <==> sci != 0 && open && |c.m.queue| >= 16)
      && (ret == 0 || ret == -22 || ret == ENOMSG)
      && (e != c ==> sci != 0 && open && |c.m.queue| < 16)
      && (sci != 0 && open && |c.m.queue| < 16 ==>
            e.m.queue == c.m.queue + [sci] && e.m.notify && e.log.accepted == c.log.accepted + [sci])
  {
  }

  function Got(c: Whole): Whole {
    Whole(c.m.(armed := false, buf := NONE, line := false, notify := true),
          c.log.(settled := c.log.settled + AllDelivered(Pend(c.m.buf)), answers := c.log.answers + [c.m.buf]))
  }

  function Flushed(c: Whole): Whole {
    Whole(c.m.(armed := false, queue := [], buf := NONE, line := false),
          c.log.(settled := c.log.settled + AllDropped(Pend(c.m.buf)) + AllDropped(c.m.queue), purged := []))
  }

  function Notified(c: Whole): Whole {
    if !Allow(c.m) then Flushed(c)
    else if c.m.buf != NONE || c.m.queue == [] then c
    else
      Whole(c.m.(buf := c.m.queue[0], queue := c.m.queue[1..], line := true, armed := true),
            c.log.(published := c.log.published + 1, armedFor := c.log.published + 1))
  }

  function TimedOut(c: Whole): Whole {
    if c.m.buf == NONE then c else c.(m := c.m.(line := false))
  }

  // One turn of the loop: TIMEOUT is handled before NOTIFY.
  function Turned(c: Whole): Whole {
    var c1 := if c.m.timeout then TimedOut(c.(m := c.m.(timeout := false))) else c;
    if c.m.notify || c.m.pwr then Notified(c1.(m := c1.m.(notify := false, pwr := false))) else c1
  }

  function Fired(c: Whole): Whole {
    if !c.m.armed then c
    else Whole(c.m.(armed := false, timeout := true), c.log.(firedFor := c.log.armedFor))
  }

  datatype Op = Enqueue(sci: nat) | Get | Turn | Fire | Enable(en: bool) | PowerTo(power: nat)

  function Do(c: Whole, op: Op): Whole {
    match op
    case Enqueue(sci) => Enqueued(c, sci).0
    case Get => Got(c)
    case Turn => Turned(c)
    case Fire => Fired(c)
    case Enable(en) => c.(m := c.m.(en := en, notify := true))
    case PowerTo(p) => c.(m := c.m.(power := p, pwr := true))
  }

  function DoAll(c: Whole, ops: seq<Op>): Whole
    decreases |ops|
  {
    if ops == [] then c else DoAll(Do(c, ops[0]), ops[1..])
  }

  // Disabled, or in any state but S0 and modern standby: events are dropped on
  // arrival and the next turn leaves nothing queued, pending or signalled.
  // Enabled in one of those: events are taken while there is room and the next
  // turn publishes the oldest unless one is pending.
  lemma SwitchesGovern(c: Whole, en: bool, power: nat, sci: nat)
    requires sci != NONE && NoneQueued(c.m.queue)
    ensures var d := Do(Do(c, PowerTo(power)), Enable(en)); var t := Turned(d);
      && d == Do(Do(c, Enable(en)), PowerTo(power)) && d.m.queue == c.m.queue && d.m.buf == c.m.buf
      && if en && (power == 1 || power == 2) then
           && (|c.m.queue| < 16 ==> Enqueued(d, sci).0.m.queue == c.m.queue + [sci])
           && Pend(t.m.buf) + t.m.queue == Pend(c.m.buf) + c.m.queue
           && (t.m.buf == NONE ==> c.m.buf == NONE && c.m.queue == [])
         else Enqueued(d, sci) == (d, 0) && t.m.queue == [] && t.m.buf == NONE && !t.m.line && !t.m.armed
  {
    hide AllDropped;
    if c.m.buf == NONE && c.m.queue != [] {
      assert c.m.queue == [c.m.queue[0]] + c.m.queue[1..];
    }
  }

  // -------------------------------------------------------- the line and timer

  // A high line has an event behind it and a timer that will lower it; a timer
  // running or expired on a pending event is that event's own.
  predicate LineTimer(c: Whole) {
    && (c.m.line ==> c.m.buf != NONE && (c.m.armed || c.m.timeout))
    && (c.m.armed ==> c.m.buf != NONE && c.log.armedFor == c.log.published)
    && (c.m.timeout && c.m.buf != NONE ==> !c.m.armed && c.log.firedFor == c.log.published)
    && NoneQueued(c.m.queue)
  }

  lemma DoKeepsLine(c: Whole, op: Op)
    requires LineTimer(c)
    ensures LineTimer(Do(c, op))
  {
    hide AllDelivered;
    hide AllDropped;
    hide Pend;
  }

  lemma {:induction false} LineTimerAlways(c: Whole, ops: seq<Op>)
    requires LineTimer(c)
    ensures LineTimer(DoAll(c, ops))
    decreases |ops|
  {
    hide Do;
    hide LineTimer;
    if ops != [] {
      DoKeepsLine(c, ops[0]);
      LineTimerAlways(Do(c, ops[0]), ops[1..]);
    }
  }

  // A turn that takes the line down while its event stays pending does so for
  // that event's own expired timer, never for an earlier one's.
  lemma OnlyOwnTimeoutLowers(c: Whole, ops: seq<Op>)
    requires LineTimer(c)
    ensures var b := DoAll(c, ops); var e := Turned(b);
      b.m.line && !e.m.line && e.m.buf != NONE ==>
        b.m.timeout && b.log.firedFor == b.log.published && e.m.buf == b.m.buf && e.log.published == b.log.published
  {
    hide DoAll;
    hide AllDropped;
    hide Pend;
    LineTimerAlways(c, ops);
  }

  // ------------------------------------------------------------------ draining

  function Rounds(c: Whole, n: nat): Whole
    decreases n
  {
    if n == 0 then c else Rounds(Got(Turned(c)), n - 1)
  }

  function Backlog(c: Whole): nat {
    |c.m.queue| + |Pend(c.m.buf)|
  }

  predicate Ripe(c: Whole) {
    Allow(c.m) && NoneQueued(c.m.queue) && (c.m.buf == NONE && c.m.queue != [] ==> c.m.notify)
  }

  // Each turn-and-read round hands the host exactly the next event.
  lemma RoundDelivers(c: Whole)
    requires Ripe(c) && Backlog(c) > 0
    ensures var e := Got(Turned(c)); var next := (Pend(c.m.buf) + c.m.queue)[0];
      && Ripe(e) && e.log.answers == c.log.answers + [next] && next != NONE
      && Pend(e.m.buf) + e.m.queue == (Pend(c.m.buf) + c.m.queue)[1..]
      && Backlog(e) == Backlog(c) - 1
  {
    hide AllDelivered;
    hide AllDropped;
    if c.m.buf == NONE {
      assert c.m.queue == [c.m.queue[0]] + c.m.queue[1..];
    }
  }

  lemma {:induction false} RoundsDrain(c: Whole)
    requires Ripe(c)
    ensures var e := Rounds(c, Backlog(c));
      && e.m.queue == [] && e.m.buf == NONE
      && e.log.answers == c.log.answers + Pend(c.m.buf) + c.m.queue
    decreases Backlog(c)
  {
    hide Turned;
    hide Got;
    hide NoneQueued;
    hide Allow;
    if Backlog(c) > 0 {
      var e := Got(Turned(c));
      var all := Pend(c.m.buf) + c.m.queue;
      RoundDelivers(c);
      RoundsDrain(e);
      assert all == [all[0]] + all[1..];
      assert c.log.answers + Pend(c.m.buf) + c.m.queue == c.log.answers + all;
      assert Rounds(c, Backlog(c)).log.answers == c.log.answers + [all[0]] + Pend(e.m.buf) + e.m.queue;
    }
  }

  // ------------------------------------- whole calls are uninterrupted schedules

  function Quiet(s: State, c: Whole): State {
    s.(m := c.m, log := c.log, svc := Waiting)
  }

  function Of(s: State): Whole {
    Whole(s.m, s.log)
  }

  lemma {:induction false} TimesAdd(s: State, a: nat, b: nat)
    ensures ServiceTimes(s, a + b) == ServiceTimes(ServiceTimes(s, a), b)
    decreases a
  {
    hide Service;
    if a != 0 {
      TimesAdd(Service(s), a - 1, b);
      assert ServiceTimes(s, a + b) == ServiceTimes(Service(s), a - 1 + b);
    }
  }

  lemma Times1(s: State)
    ensures ServiceTimes(s, 1) == Service(s)
  {
    hide Service;
    assert ServiceTimes(Service(s), 0) == Service(s);
  }

  lemma Times2(s: State)
    ensures ServiceTimes(s, 2) == Service(Service(s))
  {
    hide Service;
    Times1(Service(s));
  }

  lemma Times4(s: State)
    ensures ServiceTimes(s, 4) == Service(Service(Service(Service(s))))
  {
    hide Service;
    Times2(s);
    Times2(Service(Service(s)));
    TimesAdd(s, 2, 2);
  }

  lemma FlushStarts(s: State)
    requires s.svc.FlushTimer?
    ensures Service(Service(s))
         == s.(m := s.m.(armed := false, queue := []), svc := FlushBuf, log := s.log.(purged := s.m.queue))
  {
  }

  lemma FlushEnds(s: State)
    requires s.svc.FlushBuf?
    ensures Service(Service(s))
         == s.(m := s.m.(buf := NONE, line := false), svc := Waiting,
               log := s.log.(
                 settled := s.log.settled + AllDropped(Pend(s.m.buf)) + AllDropped(s.log.purged), purged := []))
  {
    hide AllDropped;
    hide Pend;
  }

  lemma FlushIsSteps(s: State)
    requires s.svc.FlushTimer? && s.log.purged == []
    ensures ServiceTimes(s, 4) == Quiet(s, Flushed(Of(s)))
  {
    hide AllDropped;
    hide Pend;
    hide Service;
    Times4(s);
    FlushStarts(s);
    FlushEnds(Service(Service(s)));
  }

  lemma PublishIsSteps(s: State)
    requires s.svc.BufFree? && s.m.queue != [] && Allow(s.m) && s.m.buf == NONE
    ensures ServiceTimes(s, 4) == Quiet(s, Notified(Of(s)))
  {
    hide AllDropped;
    hide Pend;
    Times4(s);
  }

  lemma NotifyIsSteps(s: State) returns (n: nat)
    requires s.svc.Cleared? && s.log.purged == []
    ensures ServiceTimes(s, n) == Quiet(s, Notified(Of(s)))
  {
    hide Flushed;
    Times1(s);
    Times2(s);
    var s1, s2 := Service(s), Service(Service(s));
    if !s.m.en {
      FlushIsSteps(s1);
      TimesAdd(s, 1, 4);
      n := 5;
    } else if !Allow(s.m) {
      FlushIsSteps(s2);
      TimesAdd(s, 2, 4);
      n := 6;
    } else {
      n := AllowedIsSteps(s2);
      TimesAdd(s, 2, n);
      n := 2 + n;
    }
  }

  lemma AllowedIsSteps(s: State) returns (n: nat)
    requires s.svc.Allowed? && Allow(s.m)
    ensures ServiceTimes(s, n) == Quiet(s, Notified(Of(s)))
  {
    hide Flushed;
    hide AllDropped;
    Times1(s);
    Times2(s);
    if s.m.buf != NONE {
      n := 1;
    } else if s.m.queue == [] {
      n := 2;
    } else {
      PublishIsSteps(Service(s));
      TimesAdd(s, 1, 4);
      n := 5;
    }
  }

  lemma TimeoutIsSteps(s: State) returns (n: nat)
    requires s.svc.Woke?
    ensures ServiceTimes(s, n)
         == s.(svc := PastTimeout(s.svc.n),
               m := (if s.svc.t then TimedOut(Of(s).(m := s.m.(timeout := false))).m else s.m))
  {
    Times1(s);
    Times2(s);
    if !s.svc.t {
      n := 1;
    } else if s.m.buf == NONE {
      n := 2;
    } else {
      Times1(Service(Service(s)));
      TimesAdd(s, 2, 1);
      n := 3;
    }
  }

  // A turn of the loop is some number of uninterrupted service steps.
  lemma TurnIsSteps(s: State) returns (n: nat)
    requires s.svc.Waiting? && s.log.purged == []
    ensures ServiceTimes(s, n) == Quiet(s, Turned(Of(s)))
  {
    hide Notified;
    if !s.m.notify && !s.m.pwr && !s.m.timeout {
      n := 0;
    } else {
      Times1(s);
      var s1 := Service(s);
      var a := TimeoutIsSteps(s1);
      TimesAdd(s, 1, a);
      var s2 := ServiceTimes(s1, a);
      Times1(s2);
      TimesAdd(s, 1 + a, 1);
      var s3 := Service(s2);
      n := 2 + a;
      if s.m.notify || s.m.pwr {
        var b := NotifyIsSteps(s3);
        TimesAdd(s, n, b);
        n := n + b;
      }
    }
  }

  // So is a read by the ACPI thread, and a producer's call.
  lemma GetIsSteps(s: State)
    requires s.acpi.Free?
    ensures Run(s, [ReadStop, ReadClear, ReadLower, ReadPost]) == s.(m := Got(Of(s)).m, log := Got(Of(s)).log)
  {
    hide AllDelivered;
    hide Pend;
    RunFour(s, ReadStop, ReadClear, ReadLower, ReadPost);
  }

  lemma EnqueueIsSteps(s: State, t: Tid, sci: nat)
    requires t in s.producers && s.producers[t].Away?
    ensures Run(s, [ProdCheckEn(t, sci), ProdCheckPwr(t), ProdPut(t), ProdPost(t)])
         == s.(m := Enqueued(Of(s), sci).0.m, log := Enqueued(Of(s), sci).0.log)
  {
    hide Run;
    hide Next;
    RunFour(s, ProdCheckEn(t, sci), ProdCheckPwr(t), ProdPut(t), ProdPost(t));
    var s1 := Next(s, ProdCheckEn(t, sci));
    var s2 := Next(s1, ProdCheckPwr(t));
    ChecksPass(s, t, sci);
    PutAndPost(s2, t);
    assert s.producers[t := Away] == s.producers;
  }

  lemma ChecksPass(s: State, t: Tid, sci: nat)
    requires t in s.producers && s.producers[t].Away?
    ensures Next(Next(s, ProdCheckEn(t, sci)), ProdCheckPwr(t))
         == s.(producers := s.producers[t := if sci != NONE && Allow(s.m) then SawPower(sci) else Away])
  {
    assert s.producers[t := Away] == s.producers;
  }

  lemma PutAndPost(s: State, t: Tid)
    requires t in s.producers && (s.producers[t].Away? || s.producers[t].SawPower?)
    ensures var e := Next(Next(s, ProdPut(t)), ProdPost(t)); var p := s.producers[t];
      e == if p.Away? || |s.m.queue| >= SCI_LEN then s.(producers := s.producers[t := Away])
           else s.(producers := s.producers[t := Away],
                   m := s.m.(queue := s.m.queue + [p.sci], notify := true),
                   log := s.log.(accepted := s.log.accepted + [p.sci]))
  {
    var e := Next(Next(s, ProdPut(t)), ProdPost(t));
    if s.producers[t].Away? {
      assert s.producers[t := Away] == s.producers;
    } else {
      assert e.producers == s.producers[t := Away];
    }
  }

  // So are a switch by the host, a change of power state and the timer's expiry.
  lemma SwitchIsSteps(s: State, en: bool, power: nat)
    requires s.acpi.Free? && s.pmu.Settled?
    ensures var c := Do(Of(s), Enable(en)); Run(s, [SetEnable(en), PostEnable]) == s.(m := c.m, log := c.log)
    ensures var c := Do(Of(s), PowerTo(power)); Run(s, [PowerAssign(power), PowerPost]) == s.(m := c.m, log := c.log)
    ensures var c := Do(Of(s), Fire); Next(s, TimerFires) == s.(m := c.m, log := c.log)
  {
    hide Run;
    hide Next;
    hide Fired;
    RunPair(s, SetEnable(en), PostEnable);
    RunPair(s, PowerAssign(power), PowerPost);
    EnableIsSteps(s, en);
    PowerIsSteps(s, power);
    FireIsStep(s);
  }

  lemma FireIsStep(s: State)
    ensures Next(s, TimerFires) == s.(m := Fired(Of(s)).m, log := Fired(Of(s)).log)
  {
    hide Service;
    hide ProducerStep;
    hide AcpiStep;
  }

  lemma EnableIsSteps(s: State, en: bool)
    requires s.acpi.Free?
    ensures Next(Next(s, SetEnable(en)), PostEnable) == s.(m := s.m.(en := en, notify := true))
  {
    hide Service;
    hide ProducerStep;
    hide OtherStep;
  }

  lemma PowerIsSteps(s: State, power: nat)
    requires s.pmu.Settled?
    ensures Next(Next(s, PowerAssign(power)), PowerPost) == s.(m := s.m.(power := power, pwr := true))
  {
    hide Service;
    hide ProducerStep;
    hide AcpiStep;
  }

  lemma RunPair(s: State, a: Step, b: Step)
    ensures Run(s, [a, b]) == Next(Next(s, a), b)
  {
    hide Next;
    assert [a, b][1..] == [b] && [b][1..] == [];
    assert Run(Next(s, a), [b]) == Run(Next(Next(s, a), b), []);
  }

  lemma RunFour(s: State, a: Step, b: Step, c: Step, d: Step)
    ensures Run(s, [a, b, c, d]) == Next(Next(Next(Next(s, a), b), c), d)
  {
    hide Next;
    var all := [a, b, c, d];
    assert all[0..] == all;
    RunAt(s, all, 0);
    RunAt(Next(s, a), all, 1);
    RunAt(Next(Next(s, a), b), all, 2);
    RunAt(Next(Next(Next(s, a), b), c), all, 3);
  }

  // -------------------------------------------------------- the service itself

  class Notifier {
    var en: bool
    var power: nat
    var queue: seq<nat>
    var buf: nat
    var line: bool
    var armed: bool
    var notify: bool
    var pwr: bool
    var timeout: bool
    var log: Log

    ghost function View(): Whole
      reads this
    {
      Whole(Mem(en, power, queue, buf, line, armed, notify, pwr, timeout), log)
    }

    constructor (power: nat)
      ensures View()
           == Whole(Mem(true, power, [], NONE, false, false, false, false, false), Log([], [], [], [], 0, 0, 0))
    {
      en, this.power, queue, buf := true, power, [], NONE;
      line, armed, notify, pwr, timeout := false, false, false, false, false;
      log := Log([], [], [], [], 0, 0, 0);
    }

    method SciEnque(sci: nat) returns (ret: int)
      modifies this
      ensures (View(), ret) == Enqueued(old(View()), sci)
    {
      if sci == NONE {
        return EINVAL;
      }
      if !en {
        return 0;
      }
      if power != PWR_S0 && power != PWR_MS {
        return 0;
      }
      if |queue| >= SCI_LEN {
        return ENOMSG;
      }
      queue := queue + [sci];
      log := log.(accepted := log.accepted + [sci]);
      notify := true;
      ret := 0;
    }

    method AcpiSciGet() returns (sci: nat)
      modifies this
      ensures View() == Got(old(View())) && sci == old(buf)
    {
      armed := false;
      sci := buf;
      buf := NONE;
      line := false;
      notify := true;
      log := log.(settled := log.settled + AllDelivered(Pend(sci)), answers := log.answers + [sci]);
    }

    method AcpiSciEnableSet(en: bool)
      modifies this
      ensures View() == Do(old(View()), Enable(en))
    {
      this.en := en;
      notify := true;
    }

    method PowerChanged(power: nat)
      modifies this
      ensures View() == Do(old(View()), PowerTo(power))
    {
      this.power := power;
      pwr := true;
    }

    method TimerExpired()
      modifies this
      ensures View() == Fired(old(View()))
    {
      if armed {
        armed := false;
        timeout := true;
        log := log.(firedFor := log.armedFor);
      }
    }

    method SciFlush()
      modifies this
      ensures View() == Flushed(old(View()))
    {
      armed := false;
      var dropped := queue;
      queue := [];
      log := log.(settled := log.settled + AllDropped(Pend(buf)) + AllDropped(dropped), purged := []);
      buf := NONE;
      line := false;
    }

    method SciNotifyHdl()
      modifies this
      ensures View() == Notified(old(View()))
    {
      hide Flushed;
      if !en || (power != PWR_S0 && power != PWR_MS) {
        SciFlush();
        return;
      }
      if buf != NONE {
        return;
      }
      if queue == [] {
        return;
      }
      var sci := queue[0];
      queue := queue[1..];
      buf := sci;
      line := true;
      armed := true;
      log := log.(published := log.published + 1, armedFor := log.published + 1);
    }

    method SciTimeoutHdl()
      modifies this
      ensures View() == TimedOut(old(View()))
    {
      if buf == NONE {
        return;
      }
      line := false;
    }

    method LoopTurn()
      modifies this
      ensures View() == Turned(old(View()))
    {
      hide Notified;
      var t, n := timeout, notify || pwr;
      if t {
        timeout := false;
        SciTimeoutHdl();
      }
      if n {
        notify, pwr := false, false;
        SciNotifyHdl();
      }
    }
  }
}

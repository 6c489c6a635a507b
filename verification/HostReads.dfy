/**
 The framer and the SCI service together, at the grain of single bytes and
 single shared accesses: the host's one-byte read command goes through the
 framer, whose handler run takes the pending event access by access, while end
 marks arrive and producers, the power service, the timer and the service
 thread go on around it.
 */
module HostReads {
  import opened Crc32
  import opened Wrappers
  import A = Acpi
  import S = Sci

  // EC_ACTIVE_COOLING_SCI_EVENT
  const READ_SCI: byte := 0x05

  datatype Host = Host(f: A.Frame, c: S.State)

  datatype Step = Bus(e: A.Event) | Sci(step: S.Step)

  // A handler run beginning at this point calls the read handler.
  predicate CallsRead(f: A.Frame, table: seq<A.Entry>)
    requires f.buf != []
  {
    f.buf[0] == READ_SCI && A.Handled(table, A.Look(f.buf, f.idx)).Some?
  }

  predicate BeginsRead(f: A.Frame, table: seq<A.Entry>, e: A.Event)
    requires f.buf != []
  {
    e.HandlerBegins? && f.hdl.Woken? && CallsRead(f, table)
  }

  // The handler returns only when the read is over.
  function Next(h: Host, table: seq<A.Entry>, step: Step): Host
    requires h.f.buf != []
  {
    match step
    case Sci(x) => h.(c := S.Next(h.c, x))
    case Bus(e) =>
      if e.HandlerEnds? && !h.c.acpi.Free? then h
      else Host(A.Next(h.f, table, e), if BeginsRead(h.f, table, e) then S.Next(h.c, S.ReadStop) else h.c)
  }

  lemma NextLength(h: Host, table: seq<A.Entry>, step: Step)
    requires h.f.buf != []
    ensures Next(h, table, step).f.buf != []
  {
    if step.Bus? {
      A.NextLength(h.f, table, step.e);
    }
  }

  function Play(h: Host, table: seq<A.Entry>, steps: seq<Step>): Host
    requires h.f.buf != []
    decreases |steps|
  {
    if steps == [] then h
    else
      NextLength(h, table, steps[0]);
      Play(Next(h, table, steps[0]), table, steps[1..])
  }

  function Events(steps: seq<Step>): seq<A.Event>
    decreases |steps|
  {
    if steps == [] then []
    else (if steps[0].Bus? then [steps[0].e] else []) + Events(steps[1..])
  }

  function Others(steps: seq<Step>): seq<S.Step>
    decreases |steps|
  {
    if steps == [] then []
    else (if steps[0].Sci? then [steps[0].step] else []) + Others(steps[1..])
  }

  // The ACPI thread begins nothing of its own accord: a read begins with the
  // handler run, and no other command comes.
  predicate NoStart(x: S.Step) {
    !x.ReadStop? && !x.SetEnable?
  }

  predicate NoStarts(steps: seq<Step>) {
    forall i :: 0 <= i < |steps| && steps[i].Sci? ==> NoStart(steps[i].step)
  }

  // The first entry for the read command asks for one byte and has a handler.
  ghost predicate Registered(table: seq<A.Entry>) {
    exists n: nat :: A.First(table, READ_SCI, n) && table[n].mand == 1 && table[n].handled
  }

  lemma RegisteredFound(table: seq<A.Entry>)
    requires Registered(table)
    ensures var k := A.Find(table, READ_SCI, 0); k < |table| && table[k].mand == 1 && table[k].handled
    ensures A.Mand8(table, READ_SCI) == 1
  {
    var n: nat :| A.First(table, READ_SCI, n) && table[n].mand == 1 && table[n].handled;
    A.FirstFound(table, READ_SCI, n);
  }

  // Outside handler runs the ACPI thread is outside the SCI service.
  predicate Aligned(h: Host) {
    h.f.hdl.Inside? || h.c.acpi.Free?
  }

  // The read command is in, dispatched early; `owed` reads still to begin.
  predicate ReadIn(h: Host, base: nat, owed: nat) {
    && h.f.buf != [] && A.Arrived(h.f, [READ_SCI], 1, Some(base)) && h.f.mand == 1 && Aligned(h)
    && owed == A.One(h.f.bit) + A.One(h.f.hdl.Woken?) <= 1
  }

  // The steps still to come leave the framer with end marks only.
  predicate OnlyEnds(steps: seq<Step>, k: nat) {
    A.BusPart(Events(steps)) == A.Ends(k)
  }

  lemma EndsTail(steps: seq<Step>, k: nat) returns (n: nat)
    requires steps != [] && OnlyEnds(steps, k)
    ensures OnlyEnds(steps[1..], n)
    ensures steps[0].Bus? ==> !steps[0].e.Cmd? && !steps[0].e.Data?
  {
    n := k;
    if steps[0].Bus? {
      var es := Events(steps);
      assert es[1..] == Events(steps[1..]);
      if A.FromBus(es[0]) {
        A.BusHead(es, A.Ends(k));
        n := k - 1;
      }
    } else {
      assert Events(steps) == Events(steps[1..]);
    }
  }

  lemma NoStartsTail(steps: seq<Step>)
    requires steps != [] && NoStarts(steps)
    ensures NoStarts(steps[1..]) && (steps[0].Sci? ==> NoStart(steps[0].step))
  {
    forall i | 0 <= i < |steps[1..]| && steps[1..][i].Sci? ensures NoStart(steps[1..][i].step) {
      assert steps[1..][i] == steps[i + 1];
    }
  }

  lemma OthersHead(steps: seq<Step>)
    requires steps != []
    ensures steps[0].Sci? ==> Others(steps) == [steps[0].step] + Others(steps[1..])
    ensures steps[0].Bus? ==> Others(steps) == Others(steps[1..])
  {
  }

  // Only the handler moves the ACPI thread off its resting place.
  lemma StaysFree(c: S.State, x: S.Step)
    requires c.acpi.Free? && NoStart(x)
    ensures S.Next(c, x).acpi.Free?
  {
    hide S.AllDropped;
    hide S.Pend;
  }

  lemma SciIn(h: Host, table: seq<A.Entry>, x: S.Step, base: nat, owed: nat)
    requires ReadIn(h, base, owed) && NoStart(x)
    ensures ReadIn(Next(h, table, Sci(x)), base, owed)
  {
    hide S.Next;
    hide A.Arrived;
    if h.c.acpi.Free? {
      StaysFree(h.c, x);
    }
  }

  // A bus event or a handler move begins a read only when one is owed.
  lemma BusIn(h: Host, table: seq<A.Entry>, e: A.Event, base: nat, owed: nat)
    requires Registered(table) && ReadIn(h, base, owed) && !e.Cmd? && !e.Data?
    ensures var g := Next(h, table, Bus(e)); var begins := e.HandlerBegins? && h.f.hdl.Woken?;
      && (begins ==> owed == 1 && h.c.acpi.Free?)
      && g.c == (if begins then S.Next(h.c, S.ReadStop) else h.c)
      && g.f.buf != [] && ReadIn(g, base, if begins then 0 else owed)
  {
    hide S.Next;
    RegisteredFound(table);
    A.NextOther(h.f, table, e, [READ_SCI], 1, Some(base));
    assert h.f.buf[0] == h.f.buf[..1][0];
  }

  // Nothing owed: however many end marks follow, no further read begins.
  lemma {:induction false} AfterRead(h: Host, table: seq<A.Entry>, steps: seq<Step>, k: nat, base: nat)
    requires Registered(table) && ReadIn(h, base, 0) && OnlyEnds(steps, k) && NoStarts(steps)
    ensures var e := Play(h, table, steps); ReadIn(e, base, 0) && e.c == S.Run(h.c, Others(steps))
    decreases |steps|
  {
    hide S.Next;
    hide A.Next;
    hide ReadIn;
    hide NoStarts;
    assert h.f.buf != [] by {
      BufferIn(h, base, 0);
    }
    if steps != [] {
      OthersHead(steps);
      NoStartsTail(steps);
      var n := EndsTail(steps, k);
      if steps[0].Bus? {
        BusIn(h, table, steps[0].e, base, 0);
      } else {
        SciIn(h, table, steps[0].step, base, 0);
      }
      AfterRead(Next(h, table, steps[0]), table, steps[1..], n, base);
    }
  }

  lemma BufferIn(h: Host, base: nat, owed: nat)
    requires ReadIn(h, base, owed)
    ensures h.f.buf != [] && owed <= 1 && (A.Drained(h.f) ==> owed == 0 && h.c.acpi.Free?)
  {
  }

  lemma RunCons(c: S.State, x: S.Step, a: seq<S.Step>, b: seq<S.Step>)
    ensures S.Run(c, [x] + a + [S.ReadStop] + b) == S.Run(S.Next(c, x), a + [S.ReadStop] + b)
    ensures S.Run(c, [x] + a) == S.Run(S.Next(c, x), a)
  {
    hide S.Next;
    assert ([x] + a + [S.ReadStop] + b)[1..] == a + [S.ReadStop] + b;
    assert ([x] + a)[1..] == a;
  }

  lemma RunHead(c: S.State, b: seq<S.Step>)
    ensures S.Run(c, [] + [S.ReadStop] + b) == S.Run(S.Next(c, S.ReadStop), b) && S.Run(c, []) == c
    ensures Others([]) + b == b
  {
    hide S.Next;
    assert ([] + [S.ReadStop] + b)[1..] == b;
  }

  // One read owed: by the time nothing is, exactly one has begun, at a moment
  // when the ACPI thread could begin it.
  lemma {:induction false} ReadOwed(h: Host, table: seq<A.Entry>, steps: seq<Step>, k: nat, base: nat)
    returns (a: seq<S.Step>, b: seq<S.Step>)
    requires Registered(table) && ReadIn(h, base, 1) && OnlyEnds(steps, k) && NoStarts(steps)
    requires h.f.buf != [] && A.Drained(Play(h, table, steps).f)
    ensures var e := Play(h, table, steps); e.c == S.Run(h.c, a + [S.ReadStop] + b) && e.c.acpi.Free?
    ensures Others(steps) == a + b && S.Run(h.c, a).acpi.Free?
    decreases |steps|
  {
    hide S.Next;
    hide A.Next;
    hide NoStarts;
    hide A.Drained;
    hide Others;
    assert steps != [] && h.f.buf != [] by {
      BufferIn(h, base, 1);
    }
    hide ReadIn;
    OthersHead(steps);
    NoStartsTail(steps);
    var n := EndsTail(steps, k);
    var g := Next(h, table, steps[0]);
    if steps[0].Sci? {
      SciIn(h, table, steps[0].step, base, 1);
      a, b := ReadOwed(g, table, steps[1..], n, base);
      RunCons(h.c, steps[0].step, a, b);
      a := [steps[0].step] + a;
    } else {
      BusIn(h, table, steps[0].e, base, 1);
      if steps[0].e.HandlerBegins? && h.f.hdl.Woken? {
        AfterRead(g, table, steps[1..], n, base);
        BufferIn(Play(g, table, steps[1..]), base, 0);
        a, b := [], Others(steps[1..]);
        RunHead(h.c, b);
      } else {
        a, b := ReadOwed(g, table, steps[1..], n, base);
      }
    }
  }

  lemma OpcodeIn(h: Host, table: seq<A.Entry>)
    requires Registered(table) && A.Sane(h.f) && A.Drained(h.f) && h.c.acpi.Free?
    ensures var g := Next(h, table, Bus(A.Cmd(READ_SCI))); ReadIn(g, |h.f.runs|, 1) && g.c == h.c
  {
    RegisteredFound(table);
    A.FirstByte(h.f, table, [READ_SCI], Some(|h.f.runs|));
  }

  lemma NothingOwed(h: Host, table: seq<A.Entry>, e: A.Event)
    requires A.Sane(h.f) && A.Drained(h.f) && !A.FromBus(e)
    ensures Next(h, table, Bus(e)) == h
  {
  }

  // A one-byte read command with any number of end marks, the handler and the
  // whole SCI service interleaved access by access in any way: once the framer
  // owes nothing, exactly one read has been made.
  lemma {:induction false} OneRead(h: Host, table: seq<A.Entry>, steps: seq<Step>, k: nat)
    returns (a: seq<S.Step>, b: seq<S.Step>)
    requires Registered(table) && A.Sane(h.f) && A.Drained(h.f) && h.c.acpi.Free? && NoStarts(steps)
    requires A.BusPart(Events(steps)) == A.Transfer([READ_SCI], k)
    requires A.Drained(Play(h, table, steps).f)
    ensures var e := Play(h, table, steps); e.c == S.Run(h.c, a + [S.ReadStop] + b) && e.c.acpi.Free?
    ensures Others(steps) == a + b && S.Run(h.c, a).acpi.Free?
    decreases |steps|
  {
    hide S.Next;
    hide A.Next;
    hide NoStarts;
    assert steps != [];
    OthersHead(steps);
    NoStartsTail(steps);
    var g := Next(h, table, steps[0]);
    if steps[0].Sci? {
      assert Events(steps) == Events(steps[1..]);
      StaysFree(h.c, steps[0].step);
      a, b := OneRead(g, table, steps[1..], k);
      RunCons(h.c, steps[0].step, a, b);
      a := [steps[0].step] + a;
    } else {
      var es, rest := Events(steps), Events(steps[1..]);
      assert es == [steps[0].e] + rest && es[1..] == rest;
      if A.FromBus(steps[0].e) {
        A.BusHead(es, [A.Cmd(READ_SCI)] + A.Ends(k));
        OpcodeIn(h, table);
        a, b := ReadOwed(g, table, steps[1..], k, |h.f.runs|);
      } else {
        NothingOwed(h, table, steps[0].e);
        a, b := OneRead(g, table, steps[1..], k);
      }
    }
  }

  // ------------------------------------------------------------ what it takes

  predicate Quiet(xs: seq<S.Step>) {
    forall x :: x in xs ==> NoStart(x)
  }

  predicate Carries(c: S.State, got: nat) {
    c.acpi == S.ReadCleared(got) || c.acpi == S.ReadLowered(got)
  }

  lemma RestingStep(c: S.State, x: S.Step)
    requires c.acpi.Free? && NoStart(x)
    ensures S.Next(c, x).acpi.Free? && S.Next(c, x).log.answers == c.log.answers
  {
    hide S.AllDropped;
    hide S.Pend;
  }

  lemma StoppedStep(c: S.State, x: S.Step)
    requires c.acpi.ReadStopped?
    ensures var e := S.Next(c, x);
      && e.log.answers == c.log.answers
      && if x.ReadClear? then Carries(e, c.m.buf) else e.acpi.ReadStopped?
  {
    hide S.AllDropped;
    hide S.AllDelivered;
    hide S.Pend;
  }

  lemma CarryingStep(c: S.State, x: S.Step, got: nat)
    requires Carries(c, got)
    ensures var e := S.Next(c, x);
      || (Carries(e, got) && e.log.answers == c.log.answers)
      || (e.acpi.Free? && e.log.answers == c.log.answers + [got])
  {
    hide S.AllDropped;
    hide S.Pend;
  }

  lemma QuietTail(xs: seq<S.Step>)
    requires xs != [] && Quiet(xs)
    ensures NoStart(xs[0]) && Quiet(xs[1..])
  {
    assert xs[0] in xs && forall x :: x in xs[1..] ==> x in xs;
  }

  lemma {:induction false} Resting(c: S.State, xs: seq<S.Step>)
    requires c.acpi.Free? && Quiet(xs)
    ensures S.Run(c, xs).acpi.Free? && S.Run(c, xs).log.answers == c.log.answers
    decreases |xs|
  {
    hide S.Next;
    hide Quiet;
    if xs != [] {
      QuietTail(xs);
      RestingStep(c, xs[0]);
      Resting(S.Next(c, xs[0]), xs[1..]);
    }
  }

  lemma {:induction false} Carrying(c: S.State, xs: seq<S.Step>, got: nat)
    requires Carries(c, got) && Quiet(xs) && S.Run(c, xs).acpi.Free?
    ensures S.Run(c, xs).log.answers == c.log.answers + [got]
    decreases |xs|
  {
    hide S.Next;
    hide Quiet;
    if xs != [] {
      QuietTail(xs);
      CarryingStep(c, xs[0], got);
      var e := S.Next(c, xs[0]);
      if e.acpi.Free? {
        Resting(e, xs[1..]);
      } else {
        Carrying(e, xs[1..], got);
      }
    }
  }

  // A read begun and finished answers with the event in the slot at the step
  // that empties it.
  lemma {:induction false} Reading(c: S.State, xs: seq<S.Step>) returns (n: nat)
    requires c.acpi.ReadStopped? && Quiet(xs) && S.Run(c, xs).acpi.Free?
    ensures n < |xs| && xs[n].ReadClear? && S.Run(c, xs[..n]).acpi.ReadStopped?
    ensures S.Run(c, xs).log.answers == c.log.answers + [S.Run(c, xs[..n]).m.buf]
    decreases |xs|
  {
    hide S.Next;
    hide Quiet;
    assert xs != [];
    QuietTail(xs);
    StoppedStep(c, xs[0]);
    var e := S.Next(c, xs[0]);
    if xs[0].ReadClear? {
      Carrying(e, xs[1..], c.m.buf);
      n := 0;
    } else {
      n := Reading(e, xs[1..]);
      n := n + 1;
      assert xs[..n][1..] == xs[1..][..n - 1];
    }
  }

  lemma OthersQuiet(steps: seq<Step>)
    requires NoStarts(steps)
    ensures Quiet(Others(steps))
    decreases |steps|
  {
    hide NoStarts;
    if steps != [] {
      OthersHead(steps);
      NoStartsTail(steps);
      OthersQuiet(steps[1..]);
    }
  }

  // So each read command gets the host one answer, the event in the slot at one
  // moment of the run, and the accepted events stay delivered, dropped, pending
  // or queued in order: none is skipped and none is given twice.
  lemma ReadTakesOne(h: Host, table: seq<A.Entry>, steps: seq<Step>, k: nat)
    returns (a: seq<S.Step>, b: seq<S.Step>, n: nat)
    requires Registered(table) && A.Sane(h.f) && A.Drained(h.f) && h.c.acpi.Free? && NoStarts(steps)
    requires A.BusPart(Events(steps)) == A.Transfer([READ_SCI], k)
    requires A.Drained(Play(h, table, steps).f) && S.Conserved(h.c)
    ensures Others(steps) == a + b && n < |b| && b[n].ReadClear?
    ensures var e := Play(h, table, steps).c;
      && e == S.Run(h.c, a + [S.ReadStop] + b) && S.Conserved(e)
      && e.log.answers == h.c.log.answers + [S.Run(h.c, a + [S.ReadStop] + b[..n]).m.buf]
  {
    hide S.Conserved;
    hide Play;
    a, b := OneRead(h, table, steps, k);
    OthersQuiet(steps);
    assert Quiet(a) && Quiet(b) by {
      assert forall x :: x in a || x in b ==> x in a + b;
    }
    hide Quiet;
    var c1 := S.Run(h.c, a);
    var c2 := S.Next(c1, S.ReadStop);
    Resting(h.c, a);
    BeginsAt(c1);
    hide S.Next;
    hide S.Run;
    S.RunConcat(h.c, a + [S.ReadStop], b);
    S.RunConcat(h.c, a, [S.ReadStop]);
    S.RunOne(c1, S.ReadStop);
    n := Reading(c2, b);
    S.RunConcat(h.c, a + [S.ReadStop], b[..n]);
    S.Conservation(h.c, a + [S.ReadStop] + b);
  }

  lemma BeginsAt(c: S.State)
    requires c.acpi.Free?
    ensures S.Next(c, S.ReadStop).acpi.ReadStopped? && S.Next(c, S.ReadStop).log == c.log
  {
  }

  // Such a run there is from any state at rest: the byte, the handler's run with
  // its four accesses, an end mark meanwhile.
  const READ_RUN: seq<Step> := [
    Bus(A.Cmd(READ_SCI)), Bus(A.HandlerWakes), Bus(A.HandlerBegins), Sci(S.ReadClear), Bus(A.Process),
    Sci(S.ReadLower), Sci(S.ReadPost), Bus(A.HandlerEnds)]

  lemma ReadHappens(h: Host, table: seq<A.Entry>)
    requires Registered(table) && A.Sane(h.f) && A.Drained(h.f) && h.c.acpi.Free?
    ensures A.BusPart(Events(READ_RUN)) == A.Transfer([READ_SCI], 1)
    ensures var e := Play(h, table, READ_RUN);
      && A.Drained(e.f) && |e.f.runs| == |h.f.runs| + 1 && e.c.acpi.Free?
      && e.c.log.answers == h.c.log.answers + [h.c.m.buf] && e.c.m.buf == S.NONE
  {
    RunEvents();
    var a := Next(h, table, Bus(A.Cmd(READ_SCI)));
    var b := Next(a, table, Bus(A.HandlerWakes));
    var c := Next(b, table, Bus(A.HandlerBegins));
    hide Next;
    ReadBegins(h, table);
    ReadEnds(c, table);
    PlayHead(h, table, READ_RUN);
    PlayHead(a, table, READ_RUN[1..]);
    PlayHead(b, table, READ_RUN[2..]);
    assert READ_RUN[1..][1..] == READ_RUN[2..] && READ_RUN[2..][1..] == READ_RUN[3..];
  }

  lemma ReadBegins(h: Host, table: seq<A.Entry>)
    requires Registered(table) && A.Sane(h.f) && A.Drained(h.f) && h.c.acpi.Free?
    ensures var a := Next(h, table, Bus(A.Cmd(READ_SCI)));
      && a.f.buf != []
      && var b := Next(a, table, Bus(A.HandlerWakes));
      && b.f.buf != []
      && var c := Next(b, table, Bus(A.HandlerBegins));
      && c.f.buf != [] && c.f.idx < |c.f.buf| && c.f.dispatched && !c.f.bit && c.f.hdl.Inside?
      && c.f.runs == h.f.runs && c.c == S.Next(h.c, S.ReadStop)
  {
    hide S.Next;
    RegisteredFound(table);
    hide A.Find;
    var a := Next(h, table, Bus(A.Cmd(READ_SCI)));
    assert a.f.idx == 1 && a.f.mand == 1 && a.f.dispatched && a.f.buf[0] == READ_SCI && a.f.bit && a.f.hdl.Asleep?;
  }

  lemma ReadEnds(c: Host, table: seq<A.Entry>)
    requires c.f.buf != [] && c.f.idx < |c.f.buf| && c.f.dispatched && !c.f.bit && c.f.hdl.Inside?
    requires c.c.acpi.ReadStopped?
    ensures var e := Play(c, table, READ_RUN[3..]);
      && A.Drained(e.f) && |e.f.runs| == |c.f.runs| + 1 && e.c.acpi.Free?
      && e.c.log.answers == c.c.log.answers + [c.c.m.buf] && e.c.m.buf == S.NONE
  {
    hide S.AllDelivered;
    hide S.Pend;
    var d := Next(c, table, Sci(S.ReadClear));
    var e := Next(d, table, Bus(A.Process));
    assert e.f == c.f && e.c == d.c && d.c.acpi == S.ReadCleared(c.c.m.buf);
    var g := Next(e, table, Sci(S.ReadLower));
    var i := Next(g, table, Sci(S.ReadPost));
    assert i.c.acpi.Free? && i.f == c.f;
    var j := Next(i, table, Bus(A.HandlerEnds));
    hide Next;
    PlayHead(c, table, READ_RUN[3..]);
    PlayHead(d, table, READ_RUN[4..]);
    PlayHead(e, table, READ_RUN[5..]);
    PlayHead(g, table, READ_RUN[6..]);
    PlayHead(i, table, READ_RUN[7..]);
    assert READ_RUN[3..][1..] == READ_RUN[4..] && READ_RUN[4..][1..] == READ_RUN[5..];
    assert READ_RUN[5..][1..] == READ_RUN[6..] && READ_RUN[6..][1..] == READ_RUN[7..] && READ_RUN[7..][1..] == [];
  }

  lemma PlayHead(h: Host, table: seq<A.Entry>, steps: seq<Step>)
    requires h.f.buf != [] && steps != []
    ensures Next(h, table, steps[0]).f.buf != []
    ensures Play(h, table, steps) == Play(Next(h, table, steps[0]), table, steps[1..])
  {
    hide Next;
    NextLength(h, table, steps[0]);
  }

  const READ_EVENTS: seq<A.Event> := [A.Cmd(READ_SCI), A.HandlerWakes, A.HandlerBegins, A.Process, A.HandlerEnds]

  lemma RunEvents()
    ensures A.BusPart(Events(READ_RUN)) == A.Transfer([READ_SCI], 1)
  {
    EventsInRun();
    hide Events;
    var es := READ_EVENTS;
    assert es[1..] == [A.HandlerWakes, A.HandlerBegins, A.Process, A.HandlerEnds];
    assert es[1..][1..] == [A.HandlerBegins, A.Process, A.HandlerEnds];
    assert es[1..][1..][1..] == [A.Process, A.HandlerEnds] && es[1..][1..][1..][1..] == [A.HandlerEnds];
    assert A.BusPart([A.HandlerEnds]) == [];
    assert A.BusPart(es[1..][1..][1..]) == [A.Process];
    assert A.BusPart(es[1..]) == A.BusPart(es[1..][1..]) == [A.Process];
    assert A.BusPart(es) == [A.Cmd(READ_SCI)] + [A.Process];
    assert A.Ends(1) == [A.Process] + A.Ends(0);
    assert [READ_SCI][1..] == [];
  }

  lemma EventsInRun()
    ensures Events(READ_RUN) == READ_EVENTS
  {
    var a := [Bus(A.Cmd(READ_SCI)), Bus(A.HandlerWakes), Bus(A.HandlerBegins)];
    var b := [Sci(S.ReadClear), Bus(A.Process)];
    var c := [Sci(S.ReadLower), Sci(S.ReadPost), Bus(A.HandlerEnds)];
    EventsOf3(a[0], a[1], a[2]);
    EventsOf2(b[0], b[1]);
    EventsOf3(c[0], c[1], c[2]);
    EventsConcat(a, b);
    EventsConcat(a + b, c);
    hide Events;
    assert READ_RUN == a + b + c;
  }

  function EventOf(x: Step): seq<A.Event> {
    if x.Bus? then [x.e] else []
  }

  lemma EventsOf2(a: Step, b: Step)
    ensures Events([a, b]) == EventOf(a) + EventOf(b)
  {
    assert [a, b][1..] == [b] && [b][1..] == [];
    assert Events([b]) == EventOf(b) + Events([]);
  }

  lemma EventsOf3(a: Step, b: Step, c: Step)
    ensures Events([a, b, c]) == EventOf(a) + EventOf(b) + EventOf(c)
  {
    assert [a, b, c][1..] == [b, c];
    EventsOf2(b, c);
  }

  lemma {:induction false} EventsConcat(a: seq<Step>, b: seq<Step>)
    ensures Events(a + b) == Events(a) + Events(b)
    decreases |a|
  {
    if a == [] {
      assert a + b == b;
    } else {
      assert (a + b)[0] == a[0] && (a + b)[1..] == a[1..] + b;
      EventsHead(a + b);
      EventsHead(a);
      EventsConcat(a[1..], b);
      hide Events;
      assert EventOf(a[0]) + (Events(a[1..]) + Events(b)) == (EventOf(a[0]) + Events(a[1..])) + Events(b);
    }
  }

  // ----------------------------------------------------------- other commands

  // A handler run begins a read only for the read command.
  lemma NotARead(h: Host, table: seq<A.Entry>, e: A.Event)
    requires h.f.buf != [] && (h.f.buf[0] == READ_SCI ==> !e.HandlerBegins? || !h.f.hdl.Woken?)
    ensures Next(h, table, Bus(e)).c == h.c
    ensures Next(h, table, Bus(e)) == h || Next(h, table, Bus(e)).f == A.Next(h.f, table, e)
    ensures A.FromBus(e) ==> Next(h, table, Bus(e)).f == A.Next(h.f, table, e)
  {
  }

  lemma EventsHead(steps: seq<Step>)
    requires steps != []
    ensures Events(steps) == EventOf(steps[0]) + Events(steps[1..])
  {
  }

  lemma {:induction false} OthersTakeNothing(
    h: Host, table: seq<A.Entry>, steps: seq<Step>, bs: seq<byte>, i: nat, k: nat)
    requires h.f.buf != [] && 0 < i <= |bs| < |h.f.buf| && A.Arrived(h.f, bs, i, None) && bs[0] != READ_SCI
    requires A.BusPart(Events(steps)) == A.Datas(bs[i..]) + A.Ends(k)
    ensures Play(h, table, steps).c == S.Run(h.c, Others(steps))
    decreases |steps|
  {
    hide S.Next;
    hide A.Next;
    hide A.Arrived;
    hide Events;
    hide Others;
    if steps == [] {
      assert Others(steps) == [] by { OthersNone(); }
    } else {
      OthersHead(steps);
      EventsHead(steps);
      assert h.f.buf[0] == bs[0] by { Arrives(h.f, bs, i); }
      if steps[0].Sci? {
        assert [] + Events(steps[1..]) == Events(steps[1..]);
        OthersTakeNothing(Next(h, table, steps[0]), table, steps[1..], bs, i, k);
        assert ([steps[0].step] + Others(steps[1..]))[1..] == Others(steps[1..]);
      } else {
        var e, rest := steps[0].e, Events(steps[1..]);
        assert ([e] + rest)[1..] == rest;
        NotARead(h, table, e);
        A.NextLength(h.f, table, e);
        var g := Next(h, table, steps[0]);
        hide Next;
        if !A.FromBus(e) {
          A.NextOther(h.f, table, e, bs, i, None);
          OthersTakeNothing(g, table, steps[1..], bs, i, k);
        } else if i < |bs| {
          assert bs[i..][1..] == bs[i + 1..];
          A.BusHead([e] + rest, [A.Data(bs[i])] + A.Datas(bs[i + 1..]) + A.Ends(k));
          A.NextByte(h.f, table, bs, i, None);
          OthersTakeNothing(g, table, steps[1..], bs, i + 1, k);
        } else {
          A.BusHead([e] + rest, A.Ends(k));
          A.NextOther(h.f, table, e, bs, i, None);
          OthersTakeNothing(g, table, steps[1..], bs, i, k - 1);
        }
      }
    }
  }

  lemma OthersNone()
    ensures Others([]) == []
  {
  }

  lemma Arrives(f: A.Frame, bs: seq<byte>, i: nat)
    requires A.Arrived(f, bs, i, None) && 0 < i <= |bs| < |f.buf|
    ensures f.buf[0] == bs[0]
  {
    assert f.buf[..i][0] == bs[..i][0];
  }

  // Any other command, whatever the table registers for it, interleaved in any
  // way: it leaves the notification protocol alone.
  lemma {:induction false} OtherCommand(h: Host, table: seq<A.Entry>, steps: seq<Step>, bs: seq<byte>, k: nat)
    requires A.Sane(h.f) && A.Drained(h.f) && 0 < |bs| < |h.f.buf| && bs[0] != 0x05
    requires A.BusPart(Events(steps)) == A.Transfer(bs, k)
    ensures Play(h, table, steps).c == S.Run(h.c, Others(steps))
    decreases |steps|
  {
    hide S.Next;
    hide A.Arrived;
    hide Events;
    hide Others;
    assert steps != [] by { EventsNone(); }
    OthersHead(steps);
    EventsHead(steps);
    if steps[0].Sci? {
      assert [] + Events(steps[1..]) == Events(steps[1..]);
      OtherCommand(Next(h, table, steps[0]), table, steps[1..], bs, k);
      assert ([steps[0].step] + Others(steps[1..]))[1..] == Others(steps[1..]);
    } else {
      var e, rest := steps[0].e, Events(steps[1..]);
      assert ([e] + rest)[1..] == rest;
      NotARead(h, table, e);
      A.NextLength(h.f, table, e);
      if A.FromBus(e) {
        A.BusHead([e] + rest, [A.Cmd(bs[0])] + (A.Datas(bs[1..]) + A.Ends(k)));
        A.FirstByte(h.f, table, bs, None);
        OthersTakeNothing(Next(h, table, steps[0]), table, steps[1..], bs, 1, k);
      } else {
        NothingOwed(h, table, e);
        OtherCommand(h, table, steps[1..], bs, k);
      }
    }
  }

  lemma EventsNone()
    ensures A.BusPart(Events([])) == []
  {
  }
}

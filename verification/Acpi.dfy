/**
 The ACPI byte framer (`service/acpi/service.c`): the bus driver hands over
 bytes one at a time and an end-of-transfer mark, while the handler thread,
 woken by an event bit, runs anywhere between them.
 */
module Acpi {
  import opened Crc32
  import opened Wrappers

  const EINVAL: int := -22

  // Registered command: opcode, mandatory length including the opcode, and
  // whether it has a handler.
  datatype Entry = Entry(cmd: byte, mand: nat, handled: bool)

  // The buffer and length a handler run begins with.
  datatype Look = Look(buf: seq<byte>, idx: nat)

  // A finished run: `steady` when nothing it reads changed while it ran.
  datatype Run = Run(look: Look, steady: bool)

  // The handler thread: waiting; past clearing the bit; inside
  // `acpi_cmd_hdl` and the handler it calls.
  datatype Handler = Asleep | Woken | Inside(look: Look, steady: bool)

  datatype Frame = Frame(
    buf: seq<byte>, idx: nat, mand: nat, dispatched: bool, bit: bool, hdl: Handler, runs: seq<Run>)

  datatype Event = Cmd(b: byte) | Data(b: byte) | Process | HandlerWakes | HandlerBegins | HandlerEnds

  function Find(table: seq<Entry>, op: byte, i: nat): (k: nat)
    requires i <= |table|
    ensures i <= k <= |table|
    ensures k < |table| ==> table[k].cmd == op
    ensures forall j :: i <= j < k ==> table[j].cmd != op
    decreases |table| - i
  {
    if i == |table| || table[i].cmd == op then i else Find(table, op, i + 1)
  }

  // Entry `n` is the first one for this opcode.
  predicate First(table: seq<Entry>, op: byte, n: nat) {
    n < |table| && table[n].cmd == op && forall j :: 0 <= j < n ==> table[j].cmd != op
  }

  predicate Unknown(table: seq<Entry>, op: byte) {
    forall n :: 0 <= n < |table| ==> table[n].cmd != op
  }

  lemma FirstFound(table: seq<Entry>, op: byte, n: nat)
    ensures First(table, op, n) <==> n < |table| && n == Find(table, op, 0)
    ensures Unknown(table, op) <==> Find(table, op, 0) == |table|
  {
    var k := Find(table, op, 0);
    if First(table, op, n) {
      assert !(k < n) && !(n < k);
    }
  }

  lemma AllFound(table: seq<Entry>, op: byte)
    ensures Unknown(table, op) <==> Find(table, op, 0) == |table|
    ensures forall n: nat :: First(table, op, n) ==> n < |table| && n == Find(table, op, 0)
  {
    FirstFound(table, op, 0);
    forall n: nat | First(table, op, n) ensures n < |table| && n == Find(table, op, 0) {
      FirstFound(table, op, n);
    }
  }

  // The mandatory length in force for an opcode is its first entry's, modulo
  // 256, and zero for an opcode nobody registered.
  lemma MandKept(table: seq<Entry>, op: byte, n: nat)
    ensures First(table, op, n) ==> Mand8(table, op) == table[n].mand % 256
    ensures Unknown(table, op) ==> Mand8(table, op) == 0
  {
    FirstFound(table, op, n);
  }

  // The mandatory length as the framer keeps it, in eight bits.
  function Mand8(table: seq<Entry>, op: byte): (m: nat)
    ensures m < 256
  {
    var k := Find(table, op, 0);
    if k == |table| then 0 else table[k].mand % 256
  }

  // A byte has been stored: dispatch when the mandatory part is complete.
  function Counted(f: Frame): Frame {
    if f.idx == f.mand then f.(dispatched := true, bit := true)
    else if f.idx > f.mand then f.(dispatched := false)
    else f
  }

  // Whatever a handler run under way has read may no longer stand.
  function Unsettled(h: Handler): Handler {
    if h.Inside? then h.(steady := false) else h
  }

  function Stored(f: Frame, b: byte): Frame
    requires f.idx < |f.buf|
  {
    Counted(f.(buf := f.buf[f.idx := b], idx := f.idx + 1, hdl := Unsettled(f.hdl)))
  }

  function Rewound(f: Frame): Frame {
    if f.idx >= |f.buf| then f.(idx := 0, hdl := Unsettled(f.hdl)) else f
  }

  function Next(f: Frame, table: seq<Entry>, e: Event): Frame
    requires |f.buf| > 0
  {
    match e
    case Cmd(b) => Stored(f.(idx := 0, mand := Mand8(table, b), dispatched := false), b)
    case Data(b) => Stored(Rewound(f), b)
    case Process => if f.dispatched then Rewound(f) else Rewound(f).(bit := true)
    case HandlerWakes => if f.bit && f.hdl.Asleep? then f.(bit := false, hdl := Woken) else f
    case HandlerBegins => if f.hdl.Woken? then f.(hdl := Inside(Look(f.buf, f.idx), true)) else f
    case HandlerEnds =>
      if f.hdl.Inside? then f.(hdl := Asleep, runs := f.runs + [Run(f.hdl.look, f.hdl.steady)]) else f
  }

  function Play(f: Frame, table: seq<Entry>, es: seq<Event>): (r: Frame)
    requires |f.buf| > 0
    ensures |r.buf| == |f.buf|
    decreases |es|
  {
    if es == [] then f else Play(Next(f, table, es[0]), table, es[1..])
  }

  // --------------------------------------------------------------- transfers

  predicate FromBus(e: Event) {
    e.Cmd? || e.Data? || e.Process?
  }

  function BusPart(es: seq<Event>): seq<Event>
    decreases |es|
  {
    if es == [] then []
    else if FromBus(es[0]) then [es[0]] + BusPart(es[1..])
    else BusPart(es[1..])
  }

  function Datas(bs: seq<byte>): seq<Event>
    decreases |bs|
  {
    if bs == [] then [] else [Data(bs[0])] + Datas(bs[1..])
  }

  lemma DatasLength(bs: seq<byte>)
    ensures |Datas(bs)| == |bs|
  {
  }

  function Ends(k: nat): seq<Event> {
    if k == 0 then [] else [Process] + Ends(k - 1)
  }

  // The bytes of one transfer, and `k` end marks.
  function Transfer(bs: seq<byte>, k: nat): seq<Event>
    requires bs != []
  {
    [Cmd(bs[0])] + Datas(bs[1..]) + Ends(k)
  }

  predicate Drained(f: Frame) {
    !f.bit && f.hdl.Asleep?
  }

  // The handler is going to run on, or is running or last ran undisturbed on,
  // exactly what is buffered now.
  predicate Caught(f: Frame) {
    || f.bit || f.hdl.Woken?
    || f.hdl == Inside(Look(f.buf, f.idx), true)
    || (f.hdl.Asleep? && f.runs != [] && f.runs[|f.runs| - 1] == Run(Look(f.buf, f.idx), true))
  }

  // Both boards' buffers are longer than an 8-bit count can reach.
  predicate Sane(f: Frame) {
    |f.buf| >= 256 && f.mand < 256 && f.idx <= |f.buf| && (f.dispatched ==> f.idx == f.mand && Caught(f))
  }

  lemma NextSane(f: Frame, table: seq<Entry>, e: Event)
    requires Sane(f)
    ensures Sane(Next(f, table, e))
    ensures e.Process? ==> Caught(Next(f, table, e)) && Next(f, table, e).idx < |f.buf|
    ensures !FromBus(e) && Caught(f) ==> Caught(Next(f, table, e))
  {
  }

  // Once a transfer has ended, the handler is going to run, is running or last
  // ran on what the buffer then holds.
  lemma {:induction false} EndedCaught(f: Frame, table: seq<Entry>, es: seq<Event>)
    requires Sane(f)
    requires var bus := BusPart(es);
      if bus == [] then Caught(f) && f.idx < |f.buf| else bus[|bus| - 1].Process?
    ensures var e := Play(f, table, es); Caught(e) && e.idx < |e.buf|
    decreases |es|
  {
    if es != [] {
      var bus, rest := BusPart(es), BusPart(es[1..]);
      NextSane(f, table, es[0]);
      if FromBus(es[0]) {
        assert bus == [es[0]] + rest;
        assert rest != [] ==> bus[|bus| - 1] == rest[|rest| - 1];
      }
      EndedCaught(Next(f, table, es[0]), table, es[1..]);
    }
  }

  // The buffer holds the first `i` bytes of the transfer.
  predicate Holds(f: Frame, bs: seq<byte>, i: nat) {
    i <= |bs| && i <= |f.buf| && f.idx == i && f.buf[..i] == bs[..i]
  }

  function One(b: bool): nat {
    if b then 1 else 0
  }

  // Handler runs made and still owed.
  function Wakes(f: Frame): nat {
    |f.runs| + One(f.bit) + One(!f.hdl.Asleep?)
  }

  // `i` bytes are in.  A transfer as long as the kept mandatory length, begun
  // with nothing owed after `base` runs, owes nothing before its last byte and
  // one run from then on.
  predicate Arrived(f: Frame, bs: seq<byte>, i: nat, base: Option<nat>) {
    && Sane(f) && Holds(f, bs, i)
    && (base.Some? && f.mand == |bs| ==>
          f.dispatched == (i == |bs|)
          && if i == |bs| then Wakes(f) == base.value + 1 else Drained(f) && |f.runs| == base.value)
  }

  lemma FirstByte(f: Frame, table: seq<Entry>, bs: seq<byte>, base: Option<nat>)
    requires Sane(f) && bs != []
    requires base.None? || (Drained(f) && base.value == |f.runs|)
    ensures Arrived(Next(f, table, Cmd(bs[0])), bs, 1, base)
    ensures Next(f, table, Cmd(bs[0])).mand == Mand8(table, bs[0])
  {
    NextSane(f, table, Cmd(bs[0]));
    var g := Next(f, table, Cmd(bs[0]));
    assert g.buf[..1] == [bs[0]] == bs[..1];
  }

  lemma NextByte(f: Frame, table: seq<Entry>, bs: seq<byte>, i: nat, base: Option<nat>)
    requires Arrived(f, bs, i, base) && 0 < i < |bs| < |f.buf|
    ensures Arrived(Next(f, table, Data(bs[i])), bs, i + 1, base)
    ensures Next(f, table, Data(bs[i])).mand == f.mand
  {
    NextSane(f, table, Data(bs[i]));
    var g := Next(f, table, Data(bs[i]));
    assert g.buf[..i + 1] == f.buf[..i] + [bs[i]] == bs[..i + 1];
  }

  lemma NextOther(f: Frame, table: seq<Entry>, e: Event, bs: seq<byte>, i: nat, base: Option<nat>)
    requires Arrived(f, bs, i, base) && i < |f.buf| && (e.Process? ==> i == |bs|) && !e.Cmd? && !e.Data?
    ensures Arrived(Next(f, table, e), bs, i, base) && Next(f, table, e).mand == f.mand
  {
    NextSane(f, table, e);
  }

  lemma BusHead(es: seq<Event>, want: seq<Event>)
    requires es != [] && FromBus(es[0]) && BusPart(es) == want
    ensures want != [] && es[0] == want[0] && BusPart(es[1..]) == want[1..]
  {
  }

  lemma {:induction false} BytesArrive(
    f: Frame, table: seq<Entry>, es: seq<Event>, bs: seq<byte>, i: nat, k: nat, base: Option<nat>)
    requires 0 < i <= |bs| < |f.buf| && Arrived(f, bs, i, base)
    requires BusPart(es) == Datas(bs[i..]) + Ends(k)
    ensures Arrived(Play(f, table, es), bs, |bs|, base) && Play(f, table, es).mand == f.mand
    decreases |es|
  {
    hide Next;
    hide Arrived;
    if es == [] {
      DatasLength(bs[i..]);
      assert |Datas(bs[i..]) + Ends(k)| == 0;
    } else {
      var g := Next(f, table, es[0]);
      assert |g.buf| == |f.buf| by {
        NextLength(f, table, es[0]);
      }
      if !FromBus(es[0]) {
        NextOther(f, table, es[0], bs, i, base);
        BytesArrive(g, table, es[1..], bs, i, k, base);
      } else if i < |bs| {
        assert bs[i..][1..] == bs[i + 1..];
        BusHead(es, [Data(bs[i])] + Datas(bs[i + 1..]) + Ends(k));
        NextByte(f, table, bs, i, base);
        BytesArrive(g, table, es[1..], bs, i + 1, k, base);
      } else {
        BusHead(es, Ends(k));
        NextOther(f, table, es[0], bs, i, base);
        BytesArrive(g, table, es[1..], bs, i, k - 1, base);
      }
    }
  }

  lemma NextLength(f: Frame, table: seq<Entry>, e: Event)
    requires |f.buf| > 0
    ensures |Next(f, table, e).buf| == |f.buf|
  {
  }

  lemma {:induction false} TransferArrives(
    f: Frame, table: seq<Entry>, es: seq<Event>, bs: seq<byte>, k: nat, base: Option<nat>)
    requires Sane(f) && 0 < |bs| < |f.buf| && BusPart(es) == Transfer(bs, k)
    requires base.None? || (Drained(f) && base.value == |f.runs|)
    ensures var e := Play(f, table, es);
      Arrived(e, bs, |bs|, base) && e.mand == Mand8(table, bs[0])
    decreases |es|
  {
    hide Arrived;
    assert es != [];
    NextLength(f, table, es[0]);
    if FromBus(es[0]) {
      BusHead(es, [Cmd(bs[0])] + (Datas(bs[1..]) + Ends(k)));
      FirstByte(f, table, bs, base);
      BytesArrive(Next(f, table, es[0]), table, es[1..], bs, 1, k, base);
    } else {
      NextSane(f, table, es[0]);
      TransferArrives(Next(f, table, es[0]), table, es[1..], bs, k, base);
    }
  }

  lemma BusConcat(a: seq<Event>, b: seq<Event>)
    ensures BusPart(a + b) == BusPart(a) + BusPart(b)
    decreases |a|
  {
    if a == [] {
      assert a + b == b;
    } else {
      assert (a + b)[1..] == a[1..] + b;
      BusConcat(a[1..], b);
    }
  }

  // A run under way that still counts as steady has before it what it began with.
  predicate Honest(f: Frame) {
    f.hdl.Inside? && f.hdl.steady ==> f.hdl.look == Look(f.buf, f.idx)
  }

  lemma NextHonest(f: Frame, table: seq<Entry>, e: Event)
    requires |f.buf| > 0 && Honest(f)
    ensures Honest(Next(f, table, e))
    ensures var g := Next(f, table, e);
      g.runs == f.runs || (exists r: Run :: g.runs == f.runs + [r] && (r.steady ==> r.look == Look(f.buf, f.idx)))
  {
    if e.HandlerEnds? && f.hdl.Inside? {
      assert Next(f, table, e).runs == f.runs + [Run(f.hdl.look, f.hdl.steady)];
    }
  }

  // So at every point of every schedule, and so all the time a run counts as
  // steady, buffer and length are what the run began with.
  lemma {:induction false} SteadyHonest(f: Frame, table: seq<Entry>, es: seq<Event>)
    requires |f.buf| > 0 && Honest(f)
    ensures Honest(Play(f, table, es))
    decreases |es|
  {
    hide Next;
    hide Honest;
    if es != [] {
      NextLength(f, table, es[0]);
      NextHonest(f, table, es[0]);
      SteadyHonest(Next(f, table, es[0]), table, es[1..]);
    }
  }

  // The run saw the transfer whole, from beginning to end.
  predicate Whole(r: Run, bs: seq<byte>) {
    r.steady && r.look.idx == |bs| <= |r.look.buf| && r.look.buf[..|bs|] == bs
  }

  lemma EndsLast(bs: seq<byte>, k: nat)
    requires bs != [] && k > 0
    ensures var t := Transfer(bs, k); t != [] && t[|t| - 1] == Process
    decreases k
  {
    if k > 1 {
      EndsLast(bs, k - 1);
    }
    AllEnds(k);
  }

  lemma AllEnds(k: nat)
    ensures |Ends(k)| == k && (k > 0 ==> Ends(k)[k - 1] == Process)
  {
  }

  // A transfer, its end marks and the handler interleaved in any way: once
  // nothing is owed, the last handler run saw the whole transfer exactly when
  // it fits the buffer with a byte to spare.  The mandatory length, kept in
  // eight bits or missing altogether for an unknown opcode, does not matter.
  lemma FramingExact(f: Frame, table: seq<Entry>, es: seq<Event>, bs: seq<byte>, k: nat)
    requires Sane(f) && bs != [] && k > 0 && BusPart(es) == Transfer(bs, k)
    requires Drained(Play(f, table, es))
    ensures var e := Play(f, table, es);
      e.runs != [] && (Whole(e.runs[|e.runs| - 1], bs) <==> |bs| < |f.buf|)
  {
    hide Play;
    var e := Play(f, table, es);
    EndsLast(bs, k);
    EndedCaught(f, table, es);
    if |bs| < |f.buf| {
      TransferArrives(f, table, es, bs, k, None);
    }
  }

  // The entry whose handler this run calls, if any.
  function Handled(table: seq<Entry>, l: Look): Option<nat>
    requires l.buf != []
  {
    var k := Find(table, l.buf[0], 0);
    if k < |table| && l.idx >= table[k].mand && table[k].handled then Some(k) else None
  }

  // This run calls the handler of entry `n` with exactly `bs`.
  predicate CalledWith(table: seq<Entry>, r: Run, bs: seq<byte>, n: nat)
    requires bs != []
  {
    Whole(r, bs) && Handled(table, r.look) == Some(n)
  }

  // So a command that fits reaches whole the handler of the first entry for its
  // opcode and no other, though the early dispatch of one registered for 256
  // bytes or more fires at the wrong byte.
  lemma ReachesHandler(f: Frame, table: seq<Entry>, es: seq<Event>, bs: seq<byte>, k: nat, n: nat)
    requires Sane(f) && 0 < |bs| < |f.buf| && k > 0 && BusPart(es) == Transfer(bs, k)
    requires Drained(Play(f, table, es))
    ensures var e := Play(f, table, es);
      e.runs != [] && CalledWith(table, e.runs[|e.runs| - 1], bs, n)
        == (First(table, bs[0], n) && table[n].handled && table[n].mand <= |bs|)
  {
    hide Play;
    FramingExact(f, table, es, bs, k);
    var e := Play(f, table, es);
    var l := e.runs[|e.runs| - 1].look;
    assert l.buf[0] == l.buf[..|bs|][0];
    FirstFound(table, bs[0], n);
    hide First;
    hide Find;
  }

  // A transfer as long as the kept mandatory length runs the handler exactly
  // once however the end marks and the handler fall; any other length does not.
  lemma ExactlyOnce(f: Frame, table: seq<Entry>, bs: seq<byte>)
    requires Sane(f) && Drained(f) && 0 < |bs| < |f.buf|
    ensures (forall es, k :: BusPart(es) == Transfer(bs, k) && Drained(Play(f, table, es)) ==>
        |Play(f, table, es).runs| == |f.runs| + 1)
      <==> |bs| == Mand8(table, bs[0])
  {
    if |bs| == Mand8(table, bs[0]) {
      forall es, k | BusPart(es) == Transfer(bs, k) && Drained(Play(f, table, es))
        ensures |Play(f, table, es).runs| == |f.runs| + 1
      {
        TransferArrives(f, table, es, bs, k, Some(|f.runs|));
      }
    } else {
      var es := RunsTwice(f, table, bs);
      assert BusPart(es) == Transfer(bs, 2);
    }
  }

  const POLL: seq<Event> := [Process, HandlerWakes, HandlerBegins, HandlerEnds]

  // One end mark and one handler run.
  lemma PollRuns(f: Frame, table: seq<Entry>) returns (g: Frame)
    requires Sane(f) && !f.dispatched && f.idx < |f.buf|
    ensures Play(f, table, POLL) == g && |g.runs| == |f.runs| + 1
    ensures Sane(g) && !g.dispatched && g.idx < |g.buf| && (f.hdl.Asleep? ==> Drained(g)) && g.hdl.Asleep?
  {
    assert POLL[1..] == [HandlerWakes, HandlerBegins, HandlerEnds] && POLL[1..][1..] == [HandlerBegins, HandlerEnds];
    assert POLL[1..][1..][1..] == [HandlerEnds] && POLL[1..][1..][1..][1..] == [];
    var p := Next(f, table, Process);
    var w := Next(p, table, HandlerWakes);
    var i := Next(w, table, HandlerBegins);
    g := Next(i, table, HandlerEnds);
    PlayTail(f, table, POLL);
    PlayTail(p, table, POLL[1..]);
    PlayTail(w, table, POLL[1..][1..]);
    PlayTail(i, table, POLL[1..][1..][1..]);
  }

  lemma PlayTail(f: Frame, table: seq<Entry>, es: seq<Event>)
    requires |f.buf| > 0 && es != []
    ensures |Next(f, table, es[0]).buf| > 0
    ensures Play(f, table, es) == Play(Next(f, table, es[0]), table, es[1..])
    ensures Play(f, table, []) == f
  {
  }

  lemma PollBus()
    ensures BusPart(POLL) == [Process]
  {
    assert POLL[1..] == [HandlerWakes, HandlerBegins, HandlerEnds] && POLL[1..][1..] == [HandlerBegins, HandlerEnds];
    assert POLL[1..][1..][1..] == [HandlerEnds] && POLL[1..][1..][1..][1..] == [];
    assert BusPart(POLL[1..][1..][1..]) == [];
    assert BusPart(POLL[1..][1..]) == [];
  }

  lemma TransferSplit(bs: seq<byte>, k: nat)
    requires bs != []
    ensures BusPart(Transfer(bs, 0)) == Transfer(bs, 0)
    ensures Transfer(bs, 2) == Transfer(bs, 0) + [Process] + [Process]
  {
    DatasFromBus(bs[1..]);
    assert Ends(2) == [Process] + Ends(1);
    BusConcat([Cmd(bs[0])], Datas(bs[1..]));
    assert BusPart([Cmd(bs[0])]) == [Cmd(bs[0])];
    assert Transfer(bs, 0) == [Cmd(bs[0])] + Datas(bs[1..]);
  }

  lemma DatasFromBus(bs: seq<byte>)
    ensures BusPart(Datas(bs)) == Datas(bs)
  {
  }

  lemma PlayConcat(f: Frame, table: seq<Entry>, a: seq<Event>, b: seq<Event>)
    requires |f.buf| > 0
    ensures Play(f, table, a + b) == Play(Play(f, table, a), table, b)
    decreases |a|
  {
    hide Next;
    if a == [] {
      assert a + b == b;
    } else {
      assert (a + b)[1..] == a[1..] + b;
      NextLength(f, table, a[0]);
      PlayConcat(Next(f, table, a[0]), table, a[1..], b);
    }
  }

  lemma NextOnlyAdds(f: Frame, table: seq<Entry>, e: Event)
    requires |f.buf| > 0
    ensures f.runs <= Next(f, table, e).runs
  {
  }

  lemma {:induction false} PlayOnlyAdds(f: Frame, table: seq<Entry>, es: seq<Event>)
    requires |f.buf| > 0
    ensures f.runs <= Play(f, table, es).runs
    decreases |es|
  {
    hide Next;
    if es != [] {
      NextLength(f, table, es[0]);
      NextOnlyAdds(f, table, es[0]);
      PlayOnlyAdds(Next(f, table, es[0]), table, es[1..]);
    }
  }

  lemma RunsTwice(f: Frame, table: seq<Entry>, bs: seq<byte>) returns (es: seq<Event>)
    requires Sane(f) && Drained(f) && 0 < |bs| < |f.buf| && |bs| != Mand8(table, bs[0])
    ensures BusPart(es) == Transfer(bs, 2)
    ensures Drained(Play(f, table, es)) && |Play(f, table, es).runs| >= |f.runs| + 2
  {
    hide Transfer;
    hide Play;
    var t := Transfer(bs, 0);
    TransferSplit(bs, 2);
    var g := Play(f, table, t);
    TransferArrives(f, table, t, bs, 0, None);
    PlayOnlyAdds(f, table, t);
    var h := PollRuns(g, table);
    var _ := PollRuns(h, table);
    PlayConcat(f, table, t, POLL);
    PlayConcat(f, table, t + POLL, POLL);
    es := t + POLL + POLL;
    BusConcat(t + POLL, POLL);
    BusConcat(t, POLL);
    PollBus();
    assert Transfer(bs, 2) == t + [Process] + [Process];
  }

  // ------------------------------------------------------- the framer itself

  class Framer {
    const table: seq<Entry>
    const buf: array<byte>
    var idx: nat
    var mand: nat
    var dispatched: bool
    var bit: bool
    ghost var hdl: Handler
    ghost var runs: seq<Run>

    ghost function View(): Frame
      reads this, buf
    {
      Frame(buf[..], idx, mand, dispatched, bit, hdl, runs)
    }

    constructor (table: seq<Entry>, size: nat)
      requires size >= 256
      ensures Sane(View()) && Drained(View()) && this.table == table && buf.Length == size && fresh(buf)
    {
      this.table := table;
      buf := new byte[size];
      idx, mand, dispatched, bit := 0, 0, false, false;
      hdl, runs := Asleep, [];
    }

    // The search for the mandatory count, stored in eight bits.
    method LookUp(op: byte) returns (m: nat)
      ensures m == Mand8(table, op)
      ensures forall n: nat :: First(table, op, n) ==> m == table[n].mand % 256
      ensures Unknown(table, op) ==> m == 0
    {
      var p := 0;
      while p < |table| && table[p].cmd != op
        invariant 0 <= p <= |table| && Find(table, op, p) == Find(table, op, 0)
      {
        p := p + 1;
      }
      m := if p < |table| then table[p].mand % 256 else 0;
      AllFound(table, op);
    }

    method Store(b: byte)
      requires idx < buf.Length
      modifies `idx, `dispatched, `bit, `hdl, buf
      ensures View() == Stored(old(View()), b)
    {
      buf[idx], hdl := b, Unsettled(hdl);
      assert buf[..] == old(buf[..])[idx := b];
      idx := idx + 1;
      if idx == mand {
        dispatched, bit := true, true;
      } else if idx > mand {
        dispatched := false;
      }
    }

    method AcpiBufSet(e: Event)
      requires FromBus(e) && buf.Length > 0
      modifies this, buf
      ensures View() == Next(old(View()), table, e)
    {
      hide Mand8;
      hide Counted;
      if idx >= buf.Length {
        idx, hdl := 0, Unsettled(hdl);
      }
      if e.Process? {
        if !dispatched {
          bit := true;
        }
        return;
      }
      if e.Cmd? {
        idx, dispatched := 0, false;
        mand := LookUp(e.b);
      }
      Store(e.b);
    }

    // One turn of the handler thread up to where it looks at the command.
    method Wake() returns (woken: bool)
      requires buf.Length > 0 && hdl.Asleep?
      modifies this
      ensures View() == Next(old(View()), table, HandlerWakes) && woken == old(bit)
    {
      woken := bit;
      if woken {
        bit, hdl := false, Woken;
      }
    }

    // The entry whose handler is called, or the error for an unknown opcode;
    // the run as a whole is `HandlerBegins`, then `HandlerEnds`.
    method AcpiCmdHdl() returns (called: Result<Option<nat>, int>)
      requires buf.Length > 0 && hdl.Woken?
      modifies `hdl, `runs
      ensures View() == Next(Next(old(View()), table, HandlerBegins), table, HandlerEnds)
      ensures called.Failure? <==> Unknown(table, buf[0])
      ensures called.Failure? ==> called.error == -22
      ensures forall n: nat :: First(table, buf[0], n) ==>
                called == Success(if idx >= table[n].mand && table[n].handled then Some(n) else None)
      ensures called.Success? ==> called.value == Handled(table, Look(buf[..], idx))
    {
      runs, hdl := runs + [Run(Look(buf[..], idx), true)], Asleep;
      AllFound(table, buf[0]);
      hide First;
      hide Unknown;
      var p := 0;
      while p < |table|
        invariant 0 <= p <= |table| && Find(table, buf[0], p) == Find(table, buf[0], 0)
      {
        if buf[0] == table[p].cmd {
          return Success(if idx >= table[p].mand && table[p].handled then Some(p) else None);
        }
        p := p + 1;
      }
      called := Failure(EINVAL);
    }
  }
}

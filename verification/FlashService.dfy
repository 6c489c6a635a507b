/**
 The flash request service (`service/flash/service.c`): any number of threads
 block in `flash_service_request` while one worker serves a four-slot queue and
 writes each caller's result cell.  Steps interleave freely; a step that is not
 enabled leaves the state alone, so a list of steps is a schedule.
 */
module FlashService {
  import opened Crc32
  import opened Device
  import opened FlashOps
  import opened Storage
  import opened Wrappers

  const QUEUE_LEN: nat := 4
  const EINPROGRESS: int := -119
  const WRITE: int := 0
  const READ: int := 1
  const ERASE: int := 2
  const CRC: int := 3
  const LOAD: int := 4

  type Tid = nat

  // The arguments of one call; `data` and `crc` tell whether those pointers
  // are non-null.  The data pointer is the calling thread's own buffer.
  datatype Call = Call(command: int, addr: int, size: nat, ram: Option<nat>, data: bool, crc: bool)

  // The caller's stack variables the message points at.
  datatype Cell = Cell(result: int, crc: bv32, done: bool)

  datatype Pc = Ready | Putting(call: Call) | Waiting(call: Call, job: nat)

  datatype Thread = Thread(pc: Pc, cell: Cell, buf: seq<byte>)

  datatype Msg = Msg(client: Tid, call: Call)

  datatype Worker =
    | Idle | Got(msg: Msg) | Busy(msg: Msg) | Ran(msg: Msg, ret: int) | Rested(msg: Msg, ret: int) | Stored(msg: Msg)

  // History: what was enqueued and by whom, with a Write's data as it stood
  // then, and what each call handed back.
  datatype Job = Job(client: Tid, req: Request)

  datatype Return = Return(client: Tid, call: Call, job: nat, value: int, crcVar: Option<bv32>, buf: seq<byte>)

  datatype State = State(
    dev: Dev, status: nat, threads: map<Tid, Thread>, queue: seq<Msg>, worker: Worker,
    jobs: seq<Job>, served: nat, returned: seq<Return>)

  // ------------------------------------------------------------------- steps

  predicate Rejected(c: Call) {
    || c.addr < 0 || c.size == 0
    || ((c.command == WRITE || c.command == READ) && !c.data)
    || (c.command == LOAD && c.ram == None)
    || (c.command == CRC && !c.crc)
    || c.command < WRITE || c.command > LOAD
  }

  // A data pointer covers the bytes the call names.
  predicate Covered(c: Call, buf: seq<byte>) {
    (c.command == WRITE || c.command == READ) ==> c.size <= |buf|
  }

  function RequestOf(c: Call, buf: seq<byte>): Request
    requires !Rejected(c) && Covered(c, buf)
  {
    if c.command == WRITE then Write(c.addr, buf[..c.size])
    else if c.command == READ then Read(c.addr, c.size)
    else if c.command == ERASE then EraseAt(c.addr, c.size)
    else if c.command == CRC then CrcOf(c.addr, c.size)
    else LoadToRam(c.addr, c.size, c.ram.value)
  }

  function BufAfter(c: Call, buf: seq<byte>, reply: Reply): seq<byte> {
    if c.command == READ && reply.ret == 0 && |reply.data| <= |buf| then reply.data + buf[|reply.data|..] else buf
  }

  const FRESH: Cell := Cell(EINPROGRESS, 0, false)

  datatype Step =
    | Begin(t: Tid, call: Call)
    | Put(t: Tid)
    | Finish(t: Tid)
    | Scribble(t: Tid, buf: seq<byte>)
    | WorkerGets | WorkerMarksBusy | WorkerRuns | WorkerRests | WorkerStores | WorkerGives

  predicate Known(s: State, t: Tid) {
    t in s.threads
  }

  predicate Callable(s: State, t: Tid) {
    && Known(s, t)
    && (s.threads[t].pc.Ready?
        || (!Rejected(s.threads[t].pc.call) && Covered(s.threads[t].pc.call, s.threads[t].buf)))
  }

  predicate Enabled(s: State, step: Step) {
    match step
    case Begin(t, call) => Known(s, t) && s.threads[t].pc.Ready? && !Rejected(call) && Covered(call, s.threads[t].buf)
    case Put(t) => Callable(s, t) && s.threads[t].pc.Putting? && |s.queue| < QUEUE_LEN
    case Finish(t) => Known(s, t) && s.threads[t].pc.Waiting? && s.threads[t].cell.done
    case Scribble(t, _) => Known(s, t) && s.threads[t].pc.Ready?
    case WorkerGets => s.worker.Idle? && s.queue != []
    case WorkerMarksBusy => s.worker.Got?
    case WorkerRuns => s.worker.Busy? && Callable(s, s.worker.msg.client) && !s.threads[s.worker.msg.client].pc.Ready?
                       && s.worker.msg.call == s.threads[s.worker.msg.client].pc.call
    case WorkerRests => s.worker.Ran?
    case WorkerStores => s.worker.Rested? && Known(s, s.worker.msg.client)
    case WorkerGives => s.worker.Stored? && Known(s, s.worker.msg.client)
  }

  function SetThread(s: State, t: Tid, th: Thread): State {
    s.(threads := s.threads[t := th])
  }

  // What the worker's execution leaves in the caller's memory.
  function ThreadServed(th: Thread, c: Call, reply: Reply): Thread {
    th.(cell := if c.command == CRC then th.cell.(crc := reply.crc) else th.cell, buf := BufAfter(c, th.buf, reply))
  }

  function ReturnOf(t: Tid, th: Thread): Return
    requires th.pc.Waiting?
  {
    Return(t, th.pc.call, th.pc.job, th.cell.result,
           if th.pc.call.command == CRC && th.cell.result == 0 then Some(th.cell.crc) else None, th.buf)
  }

  function Apply(s: State, f: Faults, step: Step): State
    requires Enabled(s, step)
  {
    match step
    case Begin(t, call) => SetThread(s, t, Thread(Putting(call), FRESH, s.threads[t].buf))
    case Put(t) =>
      var th := s.threads[t];
      SetThread(s, t, th.(pc := Waiting(th.pc.call, |s.jobs|)))
      .(queue := s.queue + [Msg(t, th.pc.call)], jobs := s.jobs + [Job(t, RequestOf(th.pc.call, th.buf))])
    case Finish(t) =>
      SetThread(s, t, s.threads[t].(pc := Ready)).(returned := s.returned + [ReturnOf(t, s.threads[t])])
    case Scribble(t, buf) => SetThread(s, t, s.threads[t].(buf := buf))
    case WorkerGets => s.(queue := s.queue[1..], worker := Got(s.queue[0]))
    case WorkerMarksBusy => s.(status := STATE_BUSY, worker := Busy(s.worker.msg))
    case WorkerRuns =>
      var m := s.worker.msg;
      var th := s.threads[m.client];
      var (d, reply) := Serve(s.dev, f, RequestOf(m.call, th.buf));
      SetThread(s, m.client, ThreadServed(th, m.call, reply))
      .(dev := d, worker := Ran(m, reply.ret), served := s.served + 1)
    case WorkerRests => s.(status := STATE_IDLE, worker := Rested(s.worker.msg, s.worker.ret))
    case WorkerStores =>
      var m := s.worker.msg;
      var th := s.threads[m.client];
      SetThread(s, m.client, th.(cell := th.cell.(result := s.worker.ret))).(worker := Stored(m))
    case WorkerGives =>
      var m := s.worker.msg;
      var th := s.threads[m.client];
      SetThread(s, m.client, th.(cell := th.cell.(done := true))).(worker := Idle)
  }

  function Next(s: State, f: Faults, step: Step): State {
    if Enabled(s, step) then Apply(s, f, step) else s
  }

  function Run(s: State, f: Faults, steps: seq<Step>): State
    decreases |steps|
  {
    if steps == [] then s else Run(Next(s, f, steps[0]), f, steps[1..])
  }

  predicate Initial(s: State) {
    && s.queue == [] && s.worker == Idle && s.jobs == [] && s.served == 0 && s.returned == []
    && s.status == STATE_IDLE
    && forall t :: t in s.threads ==> s.threads[t].pc == Ready
  }

  // ----------------------------------------------------- running them in order

  // The jobs executed one at a time, with their replies.
  function Serial(d: Dev, f: Faults, jobs: seq<Job>): (r: (Dev, seq<Reply>))
    ensures |r.1| == |jobs|
    decreases |jobs|
  {
    if jobs == [] then (d, [])
    else
      var n := |jobs| - 1;
      var (d1, rs) := Serial(d, f, jobs[..n]);
      var (d2, r) := Serve(d1, f, jobs[n].req);
      (d2, rs + [r])
  }

  function ReplyTo(d: Dev, f: Faults, jobs: seq<Job>, j: nat): Reply
    requires j < |jobs|
  {
    Serial(d, f, jobs[..j + 1]).1[j]
  }

  lemma SerialStep(d: Dev, f: Faults, jobs: seq<Job>, n: nat)
    requires n < |jobs|
    ensures var (d1, r) := Serve(Serial(d, f, jobs[..n]).0, f, jobs[n].req);
      Serial(d, f, jobs[..n + 1]).0 == d1 && ReplyTo(d, f, jobs, n) == r
  {
    hide Serve;
    assert jobs[..n + 1][..n] == jobs[..n];
  }

  lemma ReplyStable(d: Dev, f: Faults, jobs: seq<Job>, more: seq<Job>, j: nat)
    requires j < |jobs|
    ensures ReplyTo(d, f, jobs + more, j) == ReplyTo(d, f, jobs, j)
    ensures (jobs + more)[..j] == jobs[..j]
  {
    assert (jobs + more)[..j + 1] == jobs[..j + 1];
  }

  // --------------------------------------------------------------- invariant

  // Messages not yet executed, oldest first.
  function Pending(s: State): seq<Msg> {
    (if s.worker.Got? || s.worker.Busy? then [s.worker.msg] else []) + s.queue
  }

  // The worker is between executing a job and signalling its caller.
  predicate Finishing(s: State) {
    s.worker.Ran? || s.worker.Rested? || s.worker.Stored?
  }

  // The request is what the call's own arguments name.
  predicate Asked(c: Call, req: Request) {
    match req
    case Write(addr, data) => c.command == 0 && addr == c.addr && |data| == c.size
    case Read(addr, size) => c.command == 1 && addr == c.addr && size == c.size
    case EraseAt(addr, size) => c.command == 2 && addr == c.addr && size == c.size
    case CrcOf(addr, size) => c.command == 3 && addr == c.addr && size == c.size
    case LoadToRam(addr, size, dst) => c.command == 4 && addr == c.addr && size == c.size && Some(dst) == c.ram
  }

  // Exactly which calls reach the queue: 0 write, 1 read, 2 erase, 3 CRC, 4 load,
  // at an address that is not negative, of at least one byte, with the pointers
  // the command needs.
  lemma AcceptedExactly(c: Call)
    ensures !Rejected(c) <==>
              && c.addr >= 0 && c.size > 0
              && (|| ((c.command == 0 || c.command == 1) && c.data)
                  || c.command == 2
                  || (c.command == 3 && c.crc)
                  || (c.command == 4 && c.ram.Some?))
  {
  }

  // For every accepted call: the message asks for what the caller asked for,
  // and a write carries the caller's bytes.
  lemma RequestIsCall(c: Call, buf: seq<byte>)
    requires !Rejected(c) && Covered(c, buf)
    ensures Asked(c, RequestOf(c, buf)) && c.addr >= 0 && c.size > 0
    ensures RequestOf(c, buf).Write? ==> RequestOf(c, buf).data <= buf
  {
  }

  // The caller's memory shows the reply to its own request.
  predicate ShowsReply(th: Thread, job: Job, reply: Reply)
    requires th.pc.Waiting?
  {
    && Asked(th.pc.call, job.req) && th.pc.call.addr >= 0 && th.pc.call.size > 0
    && (job.req.Write? ==> job.req.data <= th.buf)
    && (job.req.CrcOf? <==> th.pc.call.command == CRC)
    && (job.req.CrcOf? ==> th.cell.crc == reply.crc)
    && (job.req.Read? && reply.ret == 0 ==> reply.data <= th.buf)
  }

  predicate ThreadOk(s: State, d0: Dev, f: Faults, t: Tid)
    requires t in s.threads && s.served <= |s.jobs|
  {
    var th := s.threads[t];
    match th.pc
    case Ready => true
    case Putting(c) => !Rejected(c) && Covered(c, th.buf) && th.cell == FRESH
    case Waiting(c, j) =>
      && !Rejected(c) && Covered(c, th.buf) && j < |s.jobs| && s.jobs[j].client == t
      && (if j >= s.served then
            th.cell == FRESH && s.jobs[j].req == RequestOf(c, th.buf) && Pending(s) != []
            && j - s.served < |Pending(s)| && Pending(s)[j - s.served] == Msg(t, c)
          else
            ShowsReply(th, s.jobs[j], ReplyTo(d0, f, s.jobs, j))
            && (if Finishing(s) && s.worker.msg.client == t
                then j == s.served - 1 && !th.cell.done
                     && (s.worker.Stored? ==> th.cell.result == ReplyTo(d0, f, s.jobs, j).ret)
                else th.cell.done && th.cell.result == ReplyTo(d0, f, s.jobs, j).ret))
  }

  predicate MsgOk(s: State, k: nat)
    requires k < |Pending(s)| && |s.jobs| == s.served + |Pending(s)|
  {
    var m := Pending(s)[k];
    m.client in s.threads && s.threads[m.client].pc == Waiting(m.call, s.served + k)
  }

  predicate FinishingOk(s: State, d0: Dev, f: Faults)
    requires Finishing(s) && s.served <= |s.jobs|
  {
    && s.served > 0 && s.worker.msg.client in s.threads
    && s.threads[s.worker.msg.client].pc == Waiting(s.worker.msg.call, s.served - 1)
    && (!s.worker.Stored? ==> s.worker.ret == ReplyTo(d0, f, s.jobs, s.served - 1).ret)
  }

  // What a finished call handed back is the reply to its own job, which had
  // been served by then.
  predicate ReturnOk(s: State, d0: Dev, f: Faults, r: Return) {
    && r.job < s.served <= |s.jobs| && s.jobs[r.job].client == r.client
    && Asked(r.call, s.jobs[r.job].req) && r.call.addr >= 0 && r.call.size > 0
    && (s.jobs[r.job].req.Write? ==> s.jobs[r.job].req.data <= r.buf)
    && var reply := ReplyTo(d0, f, s.jobs, r.job);
    && r.value == reply.ret
    && r.crcVar == (if s.jobs[r.job].req.CrcOf? && reply.ret == 0 then Some(reply.crc) else None)
    && (s.jobs[r.job].req.Read? && reply.ret == 0 ==> reply.data <= r.buf)
  }

  ghost predicate Inv(s: State, d0: Dev, f: Faults) {
    && |s.queue| <= QUEUE_LEN
    && |s.jobs| == s.served + |Pending(s)|
    && s.dev == Serial(d0, f, s.jobs[..s.served]).0
    && (s.status == if s.worker.Busy? || s.worker.Ran? then STATE_BUSY else STATE_IDLE)
    && (forall t :: t in s.threads ==> ThreadOk(s, d0, f, t))
    && (forall k :: 0 <= k < |Pending(s)| ==> MsgOk(s, k))
    && (Finishing(s) ==> FinishingOk(s, d0, f))
    && (forall i :: 0 <= i < |s.returned| ==> ReturnOk(s, d0, f, s.returned[i]))
    && NotTwice(s)
  }

  // No job is handed back twice, or while its caller still waits for it.
  ghost predicate NotTwice(s: State) {
    && (forall i, k :: 0 <= i < k < |s.returned| ==> s.returned[i].job != s.returned[k].job)
    && (forall i, t :: 0 <= i < |s.returned| && t in s.threads && s.threads[t].pc.Waiting? ==>
          s.returned[i].job != s.threads[t].pc.job)
  }

  // ------------------------------------------------------------ preservation

  lemma InitialInv(s: State, f: Faults)
    requires Initial(s)
    ensures Inv(s, s.dev, f)
  {
    assert s.jobs[..0] == [];
  }

  lemma BeginKeeps(s: State, d0: Dev, f: Faults, t: Tid, call: Call)
    requires Inv(s, d0, f) && Enabled(s, Begin(t, call))
    ensures Inv(Apply(s, f, Begin(t, call)), d0, f)
  {
    hide Serial;
    hide Serve;
    hide ReplyTo;
    var e := Apply(s, f, Begin(t, call));
    assert Pending(e) == Pending(s);
    forall k | 0 <= k < |Pending(e)| ensures MsgOk(e, k) {
      assert MsgOk(s, k);
    }
    forall u | u in e.threads ensures ThreadOk(e, d0, f, u) {
      assert u != t ==> ThreadOk(s, d0, f, u);
    }
  }

  lemma PutKeeps(s: State, d0: Dev, f: Faults, t: Tid)
    requires Inv(s, d0, f) && Enabled(s, Put(t))
    ensures Inv(Apply(s, f, Put(t)), d0, f)
  {
    hide Serial;
    hide Serve;
    hide ReplyTo;
    var e := Apply(s, f, Put(t));
    var job := e.jobs[|s.jobs|];
    assert Pending(e) == Pending(s) + [Msg(t, s.threads[t].pc.call)];
    assert e.jobs[..s.served] == s.jobs[..s.served];
    forall k | 0 <= k < |Pending(e)| ensures MsgOk(e, k) {
      assert k < |Pending(s)| ==> MsgOk(s, k);
    }
    if Finishing(s) {
      ReplyStable(d0, f, s.jobs, [job], s.served - 1);
    }
    PutMine(s, d0, f, t);
    PutReturns(s, d0, f, t);
    hide ThreadOk;
    hide ReturnOk;
    hide NotTwice;
    hide Pending;
    hide RequestOf;
    forall u | u in e.threads ensures ThreadOk(e, d0, f, u) {
      if u != t {
        PutThread(s, e, d0, f, u, job);
      }
    }
  }

  lemma PutMine(s: State, d0: Dev, f: Faults, t: Tid)
    requires Inv(s, d0, f) && Enabled(s, Put(t))
    ensures ThreadOk(Apply(s, f, Put(t)), d0, f, t)
  {
    hide Serial;
    hide Serve;
    hide ReplyTo;
    hide RequestOf;
    hide NotTwice;
    hide ReturnOk;
    hide MsgOk;
    assert ThreadOk(s, d0, f, t);
    assert Pending(Apply(s, f, Put(t))) == Pending(s) + [Msg(t, s.threads[t].pc.call)];
  }

  lemma PutReturns(s: State, d0: Dev, f: Faults, t: Tid)
    requires Inv(s, d0, f) && Enabled(s, Put(t))
    ensures var e := Apply(s, f, Put(t));
      NotTwice(e) && forall i :: 0 <= i < |e.returned| ==> ReturnOk(e, d0, f, e.returned[i])
  {
    hide Serial;
    hide Serve;
    hide ReplyTo;
    hide RequestOf;
    hide ThreadOk;
    hide MsgOk;
    hide Rejected;
    var e := Apply(s, f, Put(t));
    var job := e.jobs[|s.jobs|];
    forall i | 0 <= i < |e.returned| ensures ReturnOk(e, d0, f, e.returned[i]) {
      assert ReturnOk(s, d0, f, s.returned[i]);
      ReplyStable(d0, f, s.jobs, [job], s.returned[i].job);
    }
    forall i, u | 0 <= i < |e.returned| && u in e.threads && e.threads[u].pc.Waiting?
      ensures e.returned[i].job != e.threads[u].pc.job
    {
      assert ReturnOk(s, d0, f, s.returned[i]);
    }
  }

  // Another caller's enqueueing leaves a caller's view alone.
  lemma PutThread(s: State, e: State, d0: Dev, f: Faults, u: Tid, job: Job)
    requires u in s.threads && s.served <= |s.jobs| && ThreadOk(s, d0, f, u)
    requires u in e.threads && e.threads[u] == s.threads[u] && e.jobs == s.jobs + [job]
    requires e.served == s.served && e.worker == s.worker && Pending(s) <= Pending(e)
    ensures ThreadOk(e, d0, f, u)
  {
    hide ReplyTo;
    hide RequestOf;
    hide ShowsReply;
    hide Pending;
    if s.threads[u].pc.Waiting? {
      ReplyStable(d0, f, s.jobs, [job], s.threads[u].pc.job);
    }
  }

  lemma FinishReturns(s: State, d0: Dev, f: Faults, t: Tid)
    requires t in s.threads && s.served <= |s.jobs| && ThreadOk(s, d0, f, t)
    requires s.threads[t].pc.Waiting? && s.threads[t].cell.done
    ensures s.threads[t].pc.job < s.served
    ensures ReturnOk(s, d0, f, ReturnOf(t, s.threads[t]))
    ensures !(Finishing(s) && s.worker.msg.client == t)
  {
    hide ReplyTo;
  }

  lemma FinishKeeps(s: State, d0: Dev, f: Faults, t: Tid)
    requires Inv(s, d0, f) && Enabled(s, Finish(t))
    ensures Inv(Apply(s, f, Finish(t)), d0, f)
  {
    hide Serial;
    hide Serve;
    hide ReplyTo;
    var e := Apply(s, f, Finish(t));
    assert Pending(e) == Pending(s);
    FinishReturns(s, d0, f, t);
    FinishNotTwice(s, d0, f, t);
    hide NotTwice;
    hide ShowsReply;
    hide RequestOf;
    forall k | 0 <= k < |Pending(e)| ensures MsgOk(e, k) {
      assert MsgOk(s, k);
    }
    assert Finishing(e) ==> FinishingOk(e, d0, f);
    hide ThreadOk;
    hide Pending;
    forall u | u in e.threads ensures ThreadOk(e, d0, f, u) {
      if u == t {
        ReadyOk(e, d0, f, u);
      } else {
        ThreadKept(s, e, d0, f, u);
      }
    }
    forall i | 0 <= i < |e.returned| ensures ReturnOk(e, d0, f, e.returned[i]) {
      assert i < |s.returned| ==> ReturnOk(s, d0, f, s.returned[i]);
    }
  }

  lemma ReadyOk(e: State, d0: Dev, f: Faults, u: Tid)
    requires u in e.threads && e.served <= |e.jobs| && e.threads[u].pc.Ready?
    ensures ThreadOk(e, d0, f, u)
  {
  }

  lemma ThreadKept(s: State, e: State, d0: Dev, f: Faults, u: Tid)
    requires u in s.threads && s.served <= |s.jobs| && ThreadOk(s, d0, f, u)
    requires u in e.threads && e.threads[u] == s.threads[u]
    requires e.jobs == s.jobs && e.served == s.served && e.worker == s.worker && e.queue == s.queue
    ensures ThreadOk(e, d0, f, u)
  {
    hide ReplyTo;
    hide RequestOf;
    hide ShowsReply;
  }

  lemma FinishNotTwice(s: State, d0: Dev, f: Faults, t: Tid)
    requires s.served <= |s.jobs| && NotTwice(s) && Enabled(s, Finish(t))
    requires forall u :: u in s.threads ==> ThreadOk(s, d0, f, u)
    ensures NotTwice(Apply(s, f, Finish(t)))
  {
    hide ReplyTo;
    hide ShowsReply;
    hide RequestOf;
    var e := Apply(s, f, Finish(t));
    assert ThreadOk(s, d0, f, t);
    forall i, u | 0 <= i < |e.returned| && u in e.threads && e.threads[u].pc.Waiting?
      ensures e.returned[i].job != e.threads[u].pc.job
    {
      assert ThreadOk(s, d0, f, u);
    }
  }

  lemma ScribbleKeeps(s: State, d0: Dev, f: Faults, t: Tid, buf: seq<byte>)
    requires Inv(s, d0, f) && Enabled(s, Scribble(t, buf))
    ensures Inv(Apply(s, f, Scribble(t, buf)), d0, f)
  {
    hide Serial;
    hide Serve;
    hide ReplyTo;
    var e := Apply(s, f, Scribble(t, buf));
    assert Pending(e) == Pending(s);
    forall k | 0 <= k < |Pending(e)| ensures MsgOk(e, k) {
      assert MsgOk(s, k);
    }
    hide ThreadOk;
    hide Pending;
    forall u | u in e.threads ensures ThreadOk(e, d0, f, u) {
      if u == t {
        ReadyOk(e, d0, f, u);
      } else {
        ThreadKept(s, e, d0, f, u);
      }
    }
  }

  predicate Quiet(step: Step) {
    step.WorkerGets? || step.WorkerMarksBusy? || step.WorkerRests?
  }

  lemma QuietKeeps(s: State, d0: Dev, f: Faults, step: Step)
    requires Inv(s, d0, f) && Quiet(step) && Enabled(s, step)
    ensures Inv(Apply(s, f, step), d0, f)
  {
    hide Serial;
    hide Serve;
    hide ReplyTo;
    hide RequestOf;
    hide ShowsReply;
    hide Rejected;
    hide NotTwice;
    var e := Apply(s, f, step);
    NotTwiceKept(s, e);
    assert Pending(e) == Pending(s);
    forall k | 0 <= k < |Pending(e)| ensures MsgOk(e, k) {
      assert MsgOk(s, k);
    }
    hide ThreadOk;
    forall u | u in e.threads ensures ThreadOk(e, d0, f, u) {
      QuietThread(s, e, d0, f, u);
    }
  }

  // Moves of the worker that neither execute nor answer leave a caller's view
  // alone.
  lemma QuietThread(s: State, e: State, d0: Dev, f: Faults, u: Tid)
    requires u in s.threads && s.served <= |s.jobs| && ThreadOk(s, d0, f, u)
    requires e.threads == s.threads && e.jobs == s.jobs && e.served == s.served && Pending(e) == Pending(s)
    requires Finishing(e) == Finishing(s)
    requires Finishing(s) ==> e.worker.msg == s.worker.msg && !s.worker.Stored? && !e.worker.Stored?
    ensures ThreadOk(e, d0, f, u)
  {
    hide ReplyTo;
    hide RequestOf;
    hide ShowsReply;
    hide Pending;
  }

  lemma NotTwiceKept(s: State, e: State)
    requires NotTwice(s) && e.returned == s.returned && e.threads.Keys == s.threads.Keys
    requires forall t :: t in s.threads ==> e.threads[t].pc == s.threads[t].pc
    ensures NotTwice(e)
  {
  }

  lemma RunsKeeps(s: State, d0: Dev, f: Faults)
    requires Inv(s, d0, f) && Enabled(s, WorkerRuns)
    ensures Inv(Apply(s, f, WorkerRuns), d0, f)
  {
    hide Serial;
    hide RequestOf;
    hide ThreadServed;
    hide ShowsReply;
    hide Rejected;
    hide NotTwice;
    hide ReplyTo;
    hide Serve;
    hide ReturnOk;
    hide ThreadOk;
    var e := Apply(s, f, WorkerRuns);
    var m := s.worker.msg;
    SerialStep(d0, f, s.jobs, s.served);
    RunsMine(s, d0, f);
    NotTwiceKept(s, e);
    RunsReturns(s, e, d0, f);
    assert Pending(s) == [m] + Pending(e);
    hide Pending;
    forall k | 0 <= k < |Pending(e)| ensures MsgOk(e, k) {
      assert MsgOk(s, k + 1);
    }
    assert FinishingOk(e, d0, f);
    hide MsgOk;
    hide FinishingOk;
    forall u | u in e.threads ensures ThreadOk(e, d0, f, u) {
      if u != m.client {
        RunsThread(s, e, d0, f, u);
      }
    }
  }

  // What was handed back stays right when one more job has been served.
  lemma RunsReturns(s: State, e: State, d0: Dev, f: Faults)
    requires s.served <= e.served <= |s.jobs| && e.jobs == s.jobs && e.returned == s.returned
    requires forall i :: 0 <= i < |s.returned| ==> ReturnOk(s, d0, f, s.returned[i])
    ensures forall i :: 0 <= i < |e.returned| ==> ReturnOk(e, d0, f, e.returned[i])
  {
    hide ReplyTo;
  }

  lemma RunsMine(s: State, d0: Dev, f: Faults)
    requires Inv(s, d0, f) && Enabled(s, WorkerRuns)
    ensures var e := Apply(s, f, WorkerRuns); var c := s.worker.msg.client;
      && ThreadOk(e, d0, f, c) && e.threads[c].pc == s.threads[c].pc == Waiting(s.worker.msg.call, s.served)
      && e.worker == Ran(s.worker.msg, ReplyTo(d0, f, s.jobs, s.served).ret)
      && e.dev == Serve(s.dev, f, s.jobs[s.served].req).0
  {
    hide Serial;
    hide RequestOf;
    hide ThreadServed;
    hide ShowsReply;
    hide Rejected;
    hide NotTwice;
    hide ReturnOk;
    hide ReplyTo;
    var m := s.worker.msg;
    assert MsgOk(s, 0);
    assert ThreadOk(s, d0, f, m.client);
    SerialStep(d0, f, s.jobs, s.served);
    ServedShows(s, f, s.threads[m.client], s.served);
  }

  // The execution of another caller's request leaves a caller's view alone.
  lemma RunsThread(s: State, e: State, d0: Dev, f: Faults, u: Tid)
    requires u in s.threads && s.served < |s.jobs| && ThreadOk(s, d0, f, u)
    requires u in e.threads && e.threads[u] == s.threads[u] && e.jobs == s.jobs && e.served == s.served + 1
    requires Pending(s) != [] && Pending(s)[0].client != u && Pending(e) == Pending(s)[1..]
    requires !Finishing(s) && Finishing(e) && e.worker.msg.client != u
    ensures ThreadOk(e, d0, f, u)
  {
    hide ReplyTo;
    hide RequestOf;
    hide ShowsReply;
    hide Pending;
  }

  lemma ServedShows(s: State, f: Faults, th: Thread, n: nat)
    requires th.pc.Waiting? && !Rejected(th.pc.call) && Covered(th.pc.call, th.buf) && th.cell == FRESH && n < |s.jobs|
    requires s.jobs[n].req == RequestOf(th.pc.call, th.buf)
    ensures var reply := Serve(s.dev, f, s.jobs[n].req).1; var th1 := ThreadServed(th, th.pc.call, reply);
      th1.pc == th.pc && ShowsReply(th1, s.jobs[n], reply) && Covered(th.pc.call, th1.buf)
      && !th1.cell.done && th1.cell.result == EINPROGRESS
  {
    hide Crc;
    hide ScanOf;
    hide Program;
    hide Erase;
    hide StoreRam;
    RequestIsCall(th.pc.call, th.buf);
  }

  // A thread the worker is not handling is not affected by its bookkeeping.
  lemma OtherThread(s: State, e: State, d0: Dev, f: Faults, u: Tid)
    requires u in s.threads && s.served <= |s.jobs| && ThreadOk(s, d0, f, u)
    requires u in e.threads && e.threads[u] == s.threads[u]
    requires e.jobs == s.jobs && e.served == s.served && Pending(e) == Pending(s)
    requires !(Finishing(s) && s.worker.msg.client == u) && !(Finishing(e) && e.worker.msg.client == u)
    ensures ThreadOk(e, d0, f, u)
  {
    hide ReplyTo;
    hide RequestOf;
    hide ShowsReply;
    hide Pending;
  }

  lemma StoresKeeps(s: State, d0: Dev, f: Faults)
    requires Inv(s, d0, f) && Enabled(s, WorkerStores)
    ensures Inv(Apply(s, f, WorkerStores), d0, f)
  {
    hide Serial;
    hide Serve;
    hide ReplyTo;
    hide RequestOf;
    hide Rejected;
    hide NotTwice;
    var e := Apply(s, f, WorkerStores);
    NotTwiceKept(s, e);
    assert Pending(e) == Pending(s);
    forall k | 0 <= k < |Pending(e)| ensures MsgOk(e, k) {
      assert MsgOk(s, k);
    }
    var c := s.worker.msg.client;
    assert ThreadOk(s, d0, f, c);
    assert ThreadOk(e, d0, f, c);
    forall u | u in e.threads ensures ThreadOk(e, d0, f, u) {
      assert ThreadOk(s, d0, f, u);
      if u != c {
        OtherThread(s, e, d0, f, u);
      }
    }
  }

  lemma GivesKeeps(s: State, d0: Dev, f: Faults)
    requires Inv(s, d0, f) && Enabled(s, WorkerGives)
    ensures Inv(Apply(s, f, WorkerGives), d0, f)
  {
    hide Serial;
    hide Serve;
    hide ReplyTo;
    hide RequestOf;
    hide Rejected;
    hide NotTwice;
    var e := Apply(s, f, WorkerGives);
    NotTwiceKept(s, e);
    assert Pending(e) == Pending(s);
    forall k | 0 <= k < |Pending(e)| ensures MsgOk(e, k) {
      assert MsgOk(s, k);
    }
    var c := s.worker.msg.client;
    assert ThreadOk(s, d0, f, c);
    assert ThreadOk(e, d0, f, c);
    forall u | u in e.threads ensures ThreadOk(e, d0, f, u) {
      assert ThreadOk(s, d0, f, u);
      if u != c {
        OtherThread(s, e, d0, f, u);
      }
    }
  }

  lemma NextKeeps(s: State, d0: Dev, f: Faults, step: Step)
    requires Inv(s, d0, f)
    ensures Inv(Next(s, f, step), d0, f)
  {
    hide Inv;
    hide Apply;
    if Enabled(s, step) {
      match step
      case Begin(t, call) => BeginKeeps(s, d0, f, t, call);
      case Put(t) => PutKeeps(s, d0, f, t);
      case Finish(t) => FinishKeeps(s, d0, f, t);
      case Scribble(t, buf) => ScribbleKeeps(s, d0, f, t, buf);
      case WorkerRuns => RunsKeeps(s, d0, f);
      case WorkerStores => StoresKeeps(s, d0, f);
      case WorkerGives => GivesKeeps(s, d0, f);
      case _ => QuietKeeps(s, d0, f, step);
    }
  }

  lemma {:induction false} RunKeeps(s: State, d0: Dev, f: Faults, steps: seq<Step>)
    requires Inv(s, d0, f)
    ensures Inv(Run(s, f, steps), d0, f)
    decreases |steps|
  {
    hide Inv;
    hide Next;
    if steps != [] {
      NextKeeps(s, d0, f, steps[0]);
      RunKeeps(Next(s, f, steps[0]), d0, f, steps[1..]);
    }
  }

  // ------------------------------------------------------------- main results

  // For any schedule of any number of threads: the device holds what running
  // the served jobs one at a time in enqueue order leaves, and every finished
  // call handed back its own job's reply from that same run.
  lemma Linearizable(s: State, f: Faults, steps: seq<Step>)
    requires Initial(s)
    ensures var e := Run(s, f, steps);
      && e.served <= |e.jobs|
      && e.dev == Serial(s.dev, f, e.jobs[..e.served]).0
      && |e.queue| <= 4
      && (forall i :: 0 <= i < |e.returned| ==> ReturnOk(e, s.dev, f, e.returned[i]))
      && (forall i, k :: 0 <= i < k < |e.returned| ==> e.returned[i].job != e.returned[k].job)
  {
    hide Serial;
    hide Run;
    hide Initial;
    InitialInv(s, f);
    RunKeeps(s, s.dev, f, steps);
  }

  // What a finished call means to its caller, in terms of the device as the
  // served jobs before it left it: success exactly when the flash has the range
  // and refuses none of the calls, and then the effect of the command at the
  // caller's own address and size; failure changes neither flash nor RAM.
  ghost predicate Answers(before: Dev, after: Dev, f: Faults, r: Return) {
    var (c, lo, hi) := (r.call, r.call.addr, r.call.addr + r.call.size);
    && 0 <= lo < hi && 0 <= c.command <= 4
    && (r.value == 0 <==>
          hi <= |before.flash| && NoneRefused(f, before.tick, if c.command == 3 then Chunks(c.size) else 1))
    && (r.value == 0 <==> r.value >= 0)
    && (r.value == 0 ==>
          && after.flash == (if c.command == 0 && c.size <= |r.buf| then Program(before.flash, lo, r.buf[..c.size])
                             else if c.command == 2 then Erase(before.flash, lo, c.size) else before.flash)
          && (c.command == 0 || c.command == 1 ==> c.size <= |r.buf|)
          && (c.command == 1 ==> r.buf[..c.size] == before.flash[lo..hi])
          && r.crcVar == (if c.command == 3 then Some(Crc(before.flash[lo..hi])) else None)
          && (c.command == 4 ==> c.ram.Some?)
          && after.ram == (if c.command == 4 && c.ram.Some? then StoreRam(before.ram, c.ram.value, before.flash[lo..hi])
                           else before.ram))
    && (r.value != 0 ==> after.flash == before.flash && after.ram == before.ram && r.crcVar == None)
  }

  // The caller's memory shows the reply to this request.
  predicate Replied(r: Return, req: Request, reply: Reply) {
    && Asked(r.call, req) && r.call.addr >= 0 && r.call.size > 0
    && (req.Write? ==> req.data <= r.buf)
    && r.value == reply.ret
    && r.crcVar == (if req.CrcOf? && reply.ret == 0 then Some(reply.crc) else None)
    && (req.Read? && reply.ret == 0 ==> reply.data <= r.buf)
  }

  lemma ServedAnswers(d: Dev, f: Faults, req: Request, r: Return)
    requires Replied(r, req, Serve(d, f, req).1)
    ensures Answers(d, Serve(d, f, req).0, f, r)
  {
    hide Crc;
    hide Program;
    hide Erase;
    hide StoreRam;
    hide ScanOf;
    if req.CrcOf? {
      CrcAnswers(d, f, req, r);
    } else {
      OneRefused(f, d.tick);
      hide NoneRefused;
      if req.Write? {
        assert r.buf[..|req.data|] == req.data;
      } else if req.Read? && r.value == 0 {
        assert r.buf[..req.size] == d.flash[req.addr..req.addr + req.size];
      }
    }
  }

  lemma CrcAnswers(d: Dev, f: Faults, req: Request, r: Return)
    requires Replied(r, req, Serve(d, f, req).1) && req.CrcOf?
    ensures Answers(d, Serve(d, f, req).0, f, r)
  {
    hide Crc;
    hide ScanOf;
    hide NoneRefused;
    ScanSucceeds(d, f, req.addr, req.size);
    if req.addr + req.size <= |d.flash| {
      ScanUnrefused(d, f, req.addr, req.size);
    }
  }

  lemma OneRefused(f: Faults, t: nat)
    ensures NoneRefused(f, t, 1) <==> f(t) >= 0
  {
  }

  // So every call that has returned, in any schedule, was answered as asked.
  lemma CallAnswered(s: State, f: Faults, steps: seq<Step>, i: nat)
    requires Initial(s) && i < |Run(s, f, steps).returned|
    ensures var e := Run(s, f, steps); var r := e.returned[i];
      && r.job < e.served <= |e.jobs| && e.jobs[r.job].client == r.client
      && Answers(Serial(s.dev, f, e.jobs[..r.job]).0, Serial(s.dev, f, e.jobs[..r.job + 1]).0, f, r)
  {
    hide Serial;
    hide Serve;
    hide Run;
    hide Initial;
    hide Answers;
    hide ReplyTo;
    hide Asked;
    Linearizable(s, f, steps);
    var e := Run(s, f, steps);
    var r := e.returned[i];
    SerialStep(s.dev, f, e.jobs, r.job);
    ServedAnswers(Serial(s.dev, f, e.jobs[..r.job]).0, f, e.jobs[r.job].req, r);
  }

  // ------------------------------------------------------------- every call

  // The calls a thread has been answered, in order, and the one it is in.
  function Answered(rs: seq<Return>, t: Tid): seq<Call>
    decreases |rs|
  {
    if rs == [] then []
    else
      var r := rs[|rs| - 1];
      Answered(rs[..|rs| - 1], t) + if r.client == t then [r.call] else []
  }

  function Open(s: State, t: Tid): seq<Call> {
    if t in s.threads && !s.threads[t].pc.Ready? then [s.threads[t].pc.call] else []
  }

  // The calls a schedule lets a thread make.
  function Begun(s: State, f: Faults, steps: seq<Step>, t: Tid): seq<Call>
    decreases |steps|
  {
    if steps == [] then []
    else
      (if Enabled(s, steps[0]) && steps[0].Begin? && steps[0].t == t then [steps[0].call] else [])
      + Begun(Next(s, f, steps[0]), f, steps[1..], t)
  }

  lemma AnsweredMore(rs: seq<Return>, r: Return, t: Tid)
    ensures Answered(rs + [r], t) == Answered(rs, t) + if r.client == t then [r.call] else []
  {
    assert (rs + [r])[..|rs|] == rs;
  }

  lemma StepAccounted(s: State, f: Faults, step: Step, t: Tid)
    ensures var e := Next(s, f, step);
      Answered(e.returned, t) + Open(e, t)
        == Answered(s.returned, t) + Open(s, t)
           + if Enabled(s, step) && step.Begin? && step.t == t then [step.call] else []
  {
    hide Answered;
    hide Serve;
    hide RequestOf;
    hide Rejected;
    hide Covered;
    if Enabled(s, step) && step.Finish? {
      AnsweredMore(s.returned, ReturnOf(step.t, s.threads[step.t]), t);
    }
  }

  // In every schedule each thread's calls, with the arguments it made them
  // with, are answered in the order it made them, but for the one it is in.
  lemma {:induction false} CallsAccounted(s: State, f: Faults, steps: seq<Step>, t: Tid)
    ensures var e := Run(s, f, steps);
      Answered(e.returned, t) + Open(e, t) == Answered(s.returned, t) + Open(s, t) + Begun(s, f, steps, t)
    decreases |steps|
  {
    hide Answered;
    hide Open;
    hide Next;
    hide Enabled;
    if steps != [] {
      StepAccounted(s, f, steps[0], t);
      CallsAccounted(Next(s, f, steps[0]), f, steps[1..], t);
    }
  }

  // The status byte reads busy while a request is being executed and idle at
  // all other times.
  lemma StatusTracksWorker(s: State, f: Faults, steps: seq<Step>)
    requires Initial(s)
    ensures var e := Run(s, f, steps);
      e.status == if e.worker.Busy? || e.worker.Ran? then 0xFF else 0x0B
  {
    hide Serial;
    hide Run;
    hide Initial;
    InitialInv(s, f);
    RunKeeps(s, s.dev, f, steps);
  }

  // No deadlock: whenever a call is outstanding, the worker, a completed
  // caller or a caller with queue space can move.
  lemma SomeoneMoves(s: State, d0: Dev, f: Faults, t: Tid)
    requires Inv(s, d0, f) && t in s.threads && !s.threads[t].pc.Ready?
    ensures exists step :: Enabled(s, step) && !step.Begin? && !step.Scribble?
  {
    hide Serial;
    hide ReplyTo;
    assert ThreadOk(s, d0, f, t);
    match s.worker
    case Idle =>
      if s.queue != [] {
        assert Enabled(s, WorkerGets);
      } else if s.threads[t].pc.Putting? {
        assert Enabled(s, Put(t));
      } else {
        assert Enabled(s, Finish(t));
      }
    case Got(_) => assert Enabled(s, WorkerMarksBusy);
    case Busy(m) =>
      assert MsgOk(s, 0);
      assert ThreadOk(s, d0, f, m.client);
      assert Enabled(s, WorkerRuns);
    case Ran(_, _) => assert Enabled(s, WorkerRests);
    case Rested(_, _) => assert Enabled(s, WorkerStores);
    case Stored(_) => assert Enabled(s, WorkerGives);
  }

  // -------------------------------------------------------- the service itself

  const WORKER_PASS: seq<Step> := [WorkerGets, WorkerMarksBusy, WorkerRuns, WorkerRests, WorkerStores, WorkerGives]

  // One whole turn of the worker loop on a waiting message.
  predicate PassReady(s: State) {
    && s.worker.Idle? && s.queue != []
    && Callable(s, s.queue[0].client)
    && s.threads[s.queue[0].client].pc.Waiting?
    && s.threads[s.queue[0].client].pc.call == s.queue[0].call
  }

  function WorkerPass(s: State, f: Faults): State
    requires PassReady(s)
  {
    var m := s.queue[0];
    var th := s.threads[m.client];
    var (d, reply) := Serve(s.dev, f, RequestOf(m.call, th.buf));
    var served := ThreadServed(th, m.call, reply);
    SetThread(s, m.client, served.(cell := served.cell.(result := reply.ret, done := true)))
    .(dev := d, status := STATE_IDLE, queue := s.queue[1..], served := s.served + 1)
  }

  lemma RunMore(s: State, f: Faults, step: Step, steps: seq<Step>)
    ensures Run(s, f, [step] + steps) == Run(Next(s, f, step), f, steps)
  {
    hide Next;
    assert ([step] + steps)[1..] == steps;
  }

  // The uninterrupted turn is what the six steps of a schedule amount to.
  lemma PassIsSteps(s: State, f: Faults)
    requires PassReady(s)
    ensures Run(s, f, WORKER_PASS) == WorkerPass(s, f)
  {
    hide Run;
    hide Serve;
    hide RequestOf;
    hide ThreadServed;
    var s1 := Next(s, f, WorkerGets);
    var s2 := Next(s1, f, WorkerMarksBusy);
    var s3 := Next(s2, f, WorkerRuns);
    var s4 := Next(s3, f, WorkerRests);
    var s5 := Next(s4, f, WorkerStores);
    var s6 := Next(s5, f, WorkerGives);
    assert WORKER_PASS
        == [WorkerGets]
         + ([WorkerMarksBusy] + ([WorkerRuns] + ([WorkerRests] + ([WorkerStores] + ([WorkerGives] + [])))));
    RunMore(s, f, WorkerGets,
            [WorkerMarksBusy] + ([WorkerRuns] + ([WorkerRests] + ([WorkerStores] + ([WorkerGives] + [])))));
    RunMore(s1, f, WorkerMarksBusy, [WorkerRuns] + ([WorkerRests] + ([WorkerStores] + ([WorkerGives] + []))));
    RunMore(s2, f, WorkerRuns, [WorkerRests] + ([WorkerStores] + ([WorkerGives] + [])));
    RunMore(s3, f, WorkerRests, [WorkerStores] + ([WorkerGives] + []));
    RunMore(s4, f, WorkerStores, [WorkerGives] + []);
    RunMore(s5, f, WorkerGives, []);
    RunNone(s6, f);
    PassStates(s, f, s1, s2, s3, s4, s5, s6);
  }

  lemma RunNone(s: State, f: Faults)
    ensures Run(s, f, []) == s
  {
  }

  lemma PassStates(s: State, f: Faults, s1: State, s2: State, s3: State, s4: State, s5: State, s6: State)
    requires PassReady(s)
    requires s1 == Next(s, f, WorkerGets) && s2 == Next(s1, f, WorkerMarksBusy) && s3 == Next(s2, f, WorkerRuns)
    requires s4 == Next(s3, f, WorkerRests) && s5 == Next(s4, f, WorkerStores) && s6 == Next(s5, f, WorkerGives)
    ensures s6 == WorkerPass(s, f)
  {
    hide Serve;
    hide RequestOf;
    hide ThreadServed;
    var m := s.queue[0];
    assert s2 == s.(queue := s.queue[1..], status := STATE_BUSY, worker := Busy(m));
    var th := s.threads[m.client];
    var (d, reply) := Serve(s.dev, f, RequestOf(m.call, th.buf));
    var sv := ThreadServed(th, m.call, reply);
    assert s3.threads == s.threads[m.client := sv];
    assert s5.threads == s.threads[m.client := sv.(cell := sv.cell.(result := reply.ret))];
    assert s6.threads == s.threads[m.client := sv.(cell := sv.cell.(result := reply.ret, done := true))];
  }

  class Service {
    const drv: Driver
    var threads: map<Tid, Thread>
    var queue: seq<Msg>
    // history
    var jobs: seq<Job>
    var served: nat
    var returned: seq<Return>

    // Between worker turns.
    ghost function View(): State
      reads this, drv
    {
      State(drv.Device(), drv.info.status, threads, queue, Idle, jobs, served, returned)
    }

    constructor (drv: Driver, ready: map<Tid, Thread>)
      requires drv.Valid() && drv.info.status == STATE_IDLE
      requires forall t :: t in ready ==> ready[t].pc == Ready
      ensures this.drv == drv && threads == ready
      ensures Initial(View())
    {
      this.drv := drv;
      threads := ready;
      queue := [];
      jobs, served, returned := [], 0, [];
    }

    // The argument checks of `flash_service_request`: a rejected call returns
    // at once and is never seen by the worker.
    method RequestBegin(t: Tid, call: Call) returns (ret: int)
      requires t in threads && threads[t].pc.Ready? && Covered(call, threads[t].buf)
      modifies this`threads
      ensures ret == if Rejected(call) then -22 else 0
      ensures View() == Next(old(View()), drv.faults, Begin(t, call))
    {
      if call.addr < 0 || call.size == 0 {
        return EINVAL;
      }
      if (call.command == WRITE || call.command == READ) && !call.data {
        return EINVAL;
      }
      if call.command == LOAD && call.ram == None {
        return EINVAL;
      }
      if call.command == CRC && !call.crc {
        return EINVAL;
      }
      if call.command < WRITE || call.command > LOAD {
        return EINVAL;
      }
      threads := threads[t := Thread(Putting(call), FRESH, threads[t].buf)];
      ret := 0;
    }

    // Blocks while the queue is full: then nothing happens.
    method RequestPut(t: Tid) returns (ok: bool)
      requires Callable(View(), t) && threads[t].pc.Putting?
      modifies this`threads, this`queue, this`jobs
      ensures ok <==> |old(queue)| < 4
      ensures View() == Next(old(View()), drv.faults, Put(t))
    {
      ok := |queue| < QUEUE_LEN;
      if ok {
        var call := threads[t].pc.call;
        queue := queue + [Msg(t, call)];
        var job := Job(t, RequestOf(call, threads[t].buf));
        threads := threads[t := threads[t].(pc := Waiting(call, |jobs|))];
        jobs := jobs + [job];
      }
    }

    // Blocks while the completion is not given.
    method RequestFinish(t: Tid) returns (ok: bool, value: int, crcVar: Option<bv32>)
      requires t in threads && threads[t].pc.Waiting?
      modifies this`threads, this`returned
      ensures ok <==> old(threads[t].cell.done)
      ensures View() == Next(old(View()), drv.faults, Finish(t))
      ensures ok ==> value == ReturnOf(t, old(threads[t])).value && crcVar == ReturnOf(t, old(threads[t])).crcVar
    {
      var th := threads[t];
      ok, value, crcVar := th.cell.done, th.cell.result, None;
      if ok {
        if th.pc.call.command == CRC && value == 0 {
          crcVar := Some(th.cell.crc);
        }
        returned := returned + [ReturnOf(t, th)];
        threads := threads[t := th.(pc := Ready)];
      }
    }

    // One turn of the worker loop.
    method WorkerTurn()
      requires drv.Valid() && PassReady(View())
      modifies this`threads, this`queue, this`served, drv, drv.crcBuf
      ensures View() == Run(old(View()), drv.faults, WORKER_PASS)
    {
      hide Run;
      hide Serve;
      hide Crc;
      PassIsSteps(View(), drv.faults);
      var msg := queue[0];
      queue := queue[1..];
      drv.info := drv.info.(status := STATE_BUSY);
      var th := threads[msg.client];
      var reply := drv.Execute(RequestOf(msg.call, th.buf));
      th := ThreadServed(th, msg.call, reply);
      drv.info := drv.info.(status := STATE_IDLE);
      th := th.(cell := th.cell.(result := reply.ret));
      th := th.(cell := th.cell.(done := true));
      threads := threads[msg.client := th];
      served := served + 1;
    }
  }
}

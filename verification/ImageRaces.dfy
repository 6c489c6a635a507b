/**
 Validation among other users of the flash service.  Measuring an image and
 copying it are separate requests in one queue (`driver/storage_bootloader.c`,
 `service/flash/service.c`): when what was measured is what was copied.
 */
module ImageRaces {
  import opened BootSafety
  import opened Crc32
  import opened Device
  import opened FlashOps
  import opened FlashService
  import opened Image
  import opened Storage
  import opened Wrappers

  // --------------------------------------------------- the jobs' device effect

  function After(d: Dev, f: Faults, jobs: seq<Job>, n: nat): Dev
    requires n <= |jobs|
  {
    Serial(d, f, jobs[..n]).0
  }

  // The job succeeds: its effect takes place.
  predicate Accepted(d: Dev, f: Faults, jobs: seq<Job>, i: nat)
    requires i < |jobs|
  {
    ReplyTo(d, f, jobs, i).ret == 0
  }

  lemma AfterStep(d: Dev, f: Faults, jobs: seq<Job>, n: nat)
    requires n < |jobs|
    ensures var (e, reply) := Serve(After(d, f, jobs, n), f, jobs[n].req);
      After(d, f, jobs, n + 1) == e && ReplyTo(d, f, jobs, n) == reply
    ensures After(d, f, jobs, 0) == d
  {
    hide Serve;
    SerialStep(d, f, jobs, n);
  }

  // The same device with other contents.
  function With(d: Dev, flash: seq<byte>): Dev {
    d.(flash := flash)
  }

  lemma {:induction false} FirstBadSame(d: Dev, e: Dev, f: Faults, addr: int, size: nat, k: nat)
    requires d.tick == e.tick && |d.flash| == |e.flash| && k <= Chunks(size)
    ensures FirstBad(d, f, addr, size, k) == FirstBad(e, f, addr, size, k)
    decreases Chunks(size) - k
  {
    if k < Chunks(size) && ChunkRet(d, f, addr, size, k) == 0 {
      FirstBadSame(d, e, f, addr, size, k + 1);
    }
  }

  lemma ServeSame(d: Dev, e: Dev, f: Faults, r: Request)
    requires d.tick == e.tick && |d.flash| == |e.flash|
    ensures Serve(d, f, r).1.ret == Serve(e, f, r).1.ret
    ensures Serve(d, f, r).0.tick == Serve(e, f, r).0.tick && |Serve(d, f, r).0.flash| == |Serve(e, f, r).0.flash|
  {
    hide Crc;
    hide Program;
    hide Erase;
    hide StoreRam;
    if r.CrcOf? && !Malformed(r) {
      FirstBadSame(d, e, f, r.addr, r.size, 0);
    }
  }

  // What the flash holds decides no reply.
  lemma {:induction false} AcceptedSame(d: Dev, flash: seq<byte>, f: Faults, jobs: seq<Job>, n: nat)
    requires |flash| == |d.flash| && n <= |jobs|
    ensures var a, b := After(d, f, jobs, n), After(With(d, flash), f, jobs, n);
      a.tick == b.tick && |a.flash| == |b.flash| == |d.flash|
    ensures n < |jobs| ==> (Accepted(d, f, jobs, n) <==> Accepted(With(d, flash), f, jobs, n))
    decreases n
  {
    hide Serve;
    hide After;
    hide ReplyTo;
    if n > 0 {
      AcceptedSame(d, flash, f, jobs, n - 1);
      AfterStep(d, f, jobs, n - 1);
      AfterStep(With(d, flash), f, jobs, n - 1);
      ServeSame(After(d, f, jobs, n - 1), After(With(d, flash), f, jobs, n - 1), f, jobs[n - 1].req);
      ServeLength(After(d, f, jobs, n - 1), f, jobs[n - 1].req);
    } else {
      AfterNone(d, f, jobs);
      AfterNone(With(d, flash), f, jobs);
    }
    if n < |jobs| {
      AfterStep(d, f, jobs, n);
      AfterStep(With(d, flash), f, jobs, n);
      ServeSame(After(d, f, jobs, n), After(With(d, flash), f, jobs, n), f, jobs[n].req);
    }
  }

  lemma AfterNone(d: Dev, f: Faults, jobs: seq<Job>)
    ensures After(d, f, jobs, 0) == d
  {
  }

  lemma ServeLength(d: Dev, f: Faults, r: Request)
    ensures |Serve(d, f, r).0.flash| == |d.flash|
  {
  }

  // ------------------------------------------------------- one byte's history

  // How a flash byte depends on what it was: some bits cleared, or fixed.
  datatype Fate = Kept(mask: byte) | Fixed(value: byte)

  function Apply(t: Fate, x: byte): byte {
    match t
    case Kept(m) => x & m
    case Fixed(v) => v
  }

  function Cleared(t: Fate, v: byte): Fate {
    match t
    case Kept(m) => Kept(m & v)
    case Fixed(c) => Fixed(c & v)
  }

  predicate Covers(addr: int, n: nat, a: int) {
    addr <= a < addr + n
  }

  function FateAfter(t: Fate, r: Request, a: int): Fate {
    match r
    case EraseAt(addr, n) => if Covers(addr, n, a) then Fixed(0xFF) else t
    case Write(addr, data) => if Covers(addr, |data|, a) then Cleared(t, data[a - addr]) else t
    case _ => t
  }

  function FlashFate(d: Dev, f: Faults, jobs: seq<Job>, n: nat, a: nat): Fate
    requires n <= |jobs|
    decreases n
  {
    if n == 0 then Kept(0xFF)
    else
      var t := FlashFate(d, f, jobs, n - 1, a);
      if Accepted(d, f, jobs, n - 1) then FateAfter(t, jobs[n - 1].req, a) else t
  }

  lemma MaskAll(x: byte)
    ensures x & 0xFF == x
  {
  }

  lemma MaskTwice(x: byte, m: byte, v: byte)
    ensures (x & m) & v == x & (m & v)
  {
  }

  lemma ApplyCleared(t: Fate, v: byte, x: byte)
    ensures Apply(Cleared(t, v), x) == Apply(t, x) & v
  {
    if t.Kept? {
      MaskTwice(x, t.mask, v);
    }
  }

  lemma EraseAtByte(flash: seq<byte>, addr: nat, n: nat, a: nat)
    requires addr + n <= |flash| && a < |flash|
    ensures Erase(flash, addr, n)[a] == if Covers(addr, n, a) then 0xFF else flash[a]
  {
  }

  lemma ProgramByte(flash: seq<byte>, addr: nat, data: seq<byte>, a: nat)
    requires addr + |data| <= |flash| && a < |flash|
    ensures Program(flash, addr, data)[a] == if Covers(addr, |data|, a) then flash[a] & data[a - addr] else flash[a]
  {
  }

  // One accepted request takes a byte to its fate; a refused one leaves it.
  lemma ServeFate(d: Dev, f: Faults, r: Request, a: nat, t: Fate, x: byte)
    requires a < |d.flash| && d.flash[a] == Apply(t, x)
    ensures var (e, reply) := Serve(d, f, r);
      a < |e.flash| && e.flash[a] == Apply(if reply.ret == 0 then FateAfter(t, r, a) else t, x)
  {
    hide Crc;
    hide Program;
    hide Erase;
    hide StoreRam;
    hide ScanOf;
    hide Apply;
    hide Cleared;
    if !Malformed(r) && !r.CrcOf? && Ret(d, f, r.addr, Size(r)) == 0 {
      match r
      case Write(addr, data) =>
        ProgramByte(d.flash, addr, data, a);
        if Covers(addr, |data|, a) {
          ApplyCleared(t, data[a - addr], x);
        }
      case EraseAt(addr, n) =>
        EraseAtByte(d.flash, addr, n, a);
        FixedApplies(x);
      case LoadToRam(_, _, _) =>
      case Read(_, _) =>
    }
  }

  lemma FixedApplies(x: byte)
    ensures Apply(Fixed(0xFF), x) == 0xFF
  {
  }

  lemma {:induction false} FlashFates(d: Dev, flash: seq<byte>, f: Faults, jobs: seq<Job>, n: nat, a: nat)
    requires |flash| == |d.flash| && n <= |jobs| && a < |flash|
    ensures var e := After(With(d, flash), f, jobs, n);
      |e.flash| == |flash| && e.flash[a] == Apply(FlashFate(d, f, jobs, n, a), flash[a])
    decreases n
  {
    hide Serve;
    hide After;
    hide ReplyTo;
    hide Apply;
    hide FateAfter;
    if n == 0 {
      AfterNone(With(d, flash), f, jobs);
      AppliesWhole(flash[a]);
    } else {
      FlashFates(d, flash, f, jobs, n - 1, a);
      AcceptedSame(d, flash, f, jobs, n - 1);
      AfterStep(With(d, flash), f, jobs, n - 1);
      var c := After(With(d, flash), f, jobs, n - 1);
      ServeFate(c, f, jobs[n - 1].req, a, FlashFate(d, f, jobs, n - 1, a), flash[a]);
      ServeLength(c, f, jobs[n - 1].req);
    }
  }

  lemma AppliesWhole(x: byte)
    ensures Apply(Kept(0xFF), x) == x
  {
    MaskAll(x);
  }

  // The request erases the byte, or writes it with anything but 0xFF.
  predicate Harms(r: Request, a: nat) {
    match r
    case EraseAt(addr, n) => Covers(addr, n, a)
    case Write(addr, data) => Covers(addr, |data|, a) && data[a - addr] != 0xFF
    case _ => false
  }

  predicate Untouched(d: Dev, f: Faults, jobs: seq<Job>, n: nat, a: nat)
    requires n <= |jobs|
  {
    forall i :: 0 <= i < n ==> !(Accepted(d, f, jobs, i) && Harms(jobs[i].req, a))
  }

  lemma MaskFull(m: byte, v: byte)
    ensures m & v == 0xFF <==> m == 0xFF && v == 0xFF
  {
  }

  // A byte is what it was, whatever that was, exactly if nothing harmed it.
  lemma {:induction false} KeptExactly(d: Dev, f: Faults, jobs: seq<Job>, n: nat, a: nat)
    requires n <= |jobs|
    ensures FlashFate(d, f, jobs, n, a) == Kept(0xFF) <==> Untouched(d, f, jobs, n, a)
    decreases n
  {
    hide ReplyTo;
    if n > 0 {
      KeptExactly(d, f, jobs, n - 1, a);
      var t, r := FlashFate(d, f, jobs, n - 1, a), jobs[n - 1].req;
      FateKept(t, r, a);
      assert Untouched(d, f, jobs, n, a)
        <==> Untouched(d, f, jobs, n - 1, a) && !(Accepted(d, f, jobs, n - 1) && Harms(r, a));
    }
  }

  lemma FateKept(t: Fate, r: Request, a: nat)
    ensures FateAfter(t, r, a) == Kept(0xFF) <==> t == Kept(0xFF) && !Harms(r, a)
  {
    if r.Write? && Covers(r.addr, |r.data|, a) && t.Kept? {
      MaskFull(t.mask, r.data[a - r.addr]);
    }
  }

  // Any other fate changes some byte.
  lemma SomeChanged(t: Fate) returns (x: byte)
    requires t != Kept(0xFF)
    ensures Apply(t, x) != x
  {
    match t
    case Kept(m) =>
      x := 0xFF;
      MaskFull(0xFF, m);
    case Fixed(v) =>
      x := if v == 0 then 1 else 0;
  }

  // ------------------------------------------------------- one RAM cell's origin

  // The last accepted load over a RAM address.
  function LastLoad(d: Dev, f: Faults, jobs: seq<Job>, n: nat, a: nat): (i: Option<nat>)
    requires n <= |jobs|
    ensures i.Some? ==> i.value < n && jobs[i.value].req.LoadToRam?
                        && Accepted(d, f, jobs, i.value) && Covers(jobs[i.value].req.dst, jobs[i.value].req.size, a)
    decreases n
  {
    if n == 0 then None
    else
      var r := jobs[n - 1].req;
      if r.LoadToRam? && Accepted(d, f, jobs, n - 1) && Covers(r.dst, r.size, a) then Some(n - 1)
      else LastLoad(d, f, jobs, n - 1, a)
  }

  // The flash address a load brings to `a`.
  function Origin(r: Request, a: nat): int
    requires r.LoadToRam?
  {
    r.addr + (a - r.dst)
  }

  lemma ServeRam(d: Dev, f: Faults, r: Request, a: nat)
    ensures var (e, reply) := Serve(d, f, r);
      if r.LoadToRam? && reply.ret == 0 && Covers(r.dst, r.size, a) then
        0 <= Origin(r, a) < |d.flash| && a in e.ram && e.ram[a] == d.flash[Origin(r, a)]
      else (a in e.ram <==> a in d.ram) && (a in d.ram ==> e.ram[a] == d.ram[a])
  {
    hide Crc;
    hide Program;
    hide Erase;
    hide ScanOf;
    hide StoreRam;
    if r.LoadToRam? && !Malformed(r) && Ret(d, f, r.addr, r.size) == 0 {
      StoreRamAt(d.ram, r.dst, d.flash[r.addr..r.addr + r.size], a);
    }
  }

  lemma {:induction false} RamOrigins(d: Dev, flash: seq<byte>, f: Faults, jobs: seq<Job>, n: nat, a: nat)
    requires |flash| == |d.flash| && n <= |jobs|
    ensures var e, i := After(With(d, flash), f, jobs, n), LastLoad(d, f, jobs, n, a);
      if i.None? then (a in e.ram <==> a in d.ram) && (a in d.ram ==> e.ram[a] == d.ram[a])
      else
        var q := Origin(jobs[i.value].req, a);
        0 <= q < |flash| && a in e.ram && e.ram[a] == Apply(FlashFate(d, f, jobs, i.value, q), flash[q])
    decreases n
  {
    hide Serve;
    hide After;
    hide ReplyTo;
    hide Apply;
    hide FlashFate;
    if n == 0 {
      AfterNone(With(d, flash), f, jobs);
    } else {
      RamOrigins(d, flash, f, jobs, n - 1, a);
      AcceptedSame(d, flash, f, jobs, n - 1);
      AfterStep(With(d, flash), f, jobs, n - 1);
      var c, r := After(With(d, flash), f, jobs, n - 1), jobs[n - 1].req;
      ServeRam(c, f, r, a);
      if r.LoadToRam? && Accepted(d, f, jobs, n - 1) && Covers(r.dst, r.size, a) {
        FlashFates(d, flash, f, jobs, n - 1, Origin(r, a));
      }
    }
  }

  // -------------------------------------------------- what was measured is copied

  function ImageIn(flash: seq<byte>, size: nat): seq<byte>
    requires IMG_ADDR + size <= |flash|
  {
    flash[IMG_ADDR..IMG_ADDR + size]
  }

  // The last accepted load over the byte's place in RAM brings the byte from its
  // own place in flash, and no accepted erase, and no accepted write of anything
  // but 0xFF, has met it there before that load.
  predicate Brought(d: Dev, f: Faults, jobs: seq<Job>, p: nat) {
    var i := LastLoad(d, f, jobs, |jobs|, RAM_ADDR + p);
    && i.Some?
    && Origin(jobs[i.value].req, RAM_ADDR + p) == IMG_ADDR + p
    && Untouched(d, f, jobs, i.value, IMG_ADDR + p)
  }

  predicate AllBrought(d: Dev, f: Faults, jobs: seq<Job>, size: nat) {
    forall p :: 0 <= p < size ==> Brought(d, f, jobs, p)
  }

  lemma BroughtHolds(d: Dev, flash: seq<byte>, f: Faults, jobs: seq<Job>, p: nat)
    requires |flash| == |d.flash| && IMG_ADDR + p < |flash| && Brought(d, f, jobs, p)
    ensures var ram := After(With(d, flash), f, jobs, |jobs|).ram;
      RAM_ADDR + p in ram && ram[RAM_ADDR + p] == flash[IMG_ADDR + p]
  {
    hide After;
    hide Apply;
    hide FlashFate;
    hide Untouched;
    hide LastLoad;
    RamOrigins(d, flash, f, jobs, |jobs|, RAM_ADDR + p);
    KeptExactly(d, f, jobs, LastLoad(d, f, jobs, |jobs|, RAM_ADDR + p).value, IMG_ADDR + p);
    AppliesWhole(flash[IMG_ADDR + p]);
  }

  function Unlike(x: byte): byte {
    if x == 0 then 1 else 0
  }

  // A byte not so brought is copied wrong for some contents of the flash.
  lemma NotBrought(d: Dev, f: Faults, jobs: seq<Job>, p: nat) returns (flash: seq<byte>)
    requires IMG_ADDR + p < |d.flash| && !Brought(d, f, jobs, p)
    ensures |flash| == |d.flash|
    ensures var ram := After(With(d, flash), f, jobs, |jobs|).ram;
      !(RAM_ADDR + p in ram && ram[RAM_ADDR + p] == flash[IMG_ADDR + p])
  {
    hide After;
    hide Apply;
    hide FlashFate;
    hide Untouched;
    var a, own := RAM_ADDR + p, IMG_ADDR + p;
    var i := LastLoad(d, f, jobs, |jobs|, a);
    if i.None? {
      flash := d.flash[own := if a in d.ram then Unlike(d.ram[a]) else 0];
      RamOrigins(d, flash, f, jobs, |jobs|, a);
    } else {
      RamOrigins(d, d.flash, f, jobs, |jobs|, a);
      var q := Origin(jobs[i.value].req, a);
      var t := FlashFate(d, f, jobs, i.value, q);
      if q != own {
        flash := d.flash[own := Unlike(Apply(t, d.flash[q]))];
      } else {
        KeptExactly(d, f, jobs, i.value, own);
        var x := SomeChanged(t);
        flash := d.flash[own := x];
      }
      RamOrigins(d, flash, f, jobs, |jobs|, a);
    }
  }

  // For the requests served after the measurement, in any order and with any of
  // them refused: RAM ends with the measured image, whatever that image is, if
  // and only if every byte of it is brought so.
  lemma CopiedExactly(d: Dev, f: Faults, jobs: seq<Job>, size: nat)
    requires IMG_ADDR + size <= |d.flash|
    ensures (forall flash: seq<byte> :: |flash| == |d.flash| ==>
              RamHolds(After(With(d, flash), f, jobs, |jobs|).ram, RAM_ADDR, ImageIn(flash, size)))
            <==> AllBrought(d, f, jobs, size)
  {
    hide After;
    hide Brought;
    if AllBrought(d, f, jobs, size) {
      forall flash: seq<byte> | |flash| == |d.flash|
        ensures RamHolds(After(With(d, flash), f, jobs, |jobs|).ram, RAM_ADDR, ImageIn(flash, size))
      {
        BroughtCopies(d, flash, f, jobs, size);
      }
    } else {
      var p :| 0 <= p < size && !Brought(d, f, jobs, p);
      var flash := NotBrought(d, f, jobs, p);
      assert ImageIn(flash, size)[p] == flash[IMG_ADDR + p];
      assert !RamHolds(After(With(d, flash), f, jobs, |jobs|).ram, RAM_ADDR, ImageIn(flash, size));
    }
  }

  lemma BroughtCopies(d: Dev, flash: seq<byte>, f: Faults, jobs: seq<Job>, size: nat)
    requires |flash| == |d.flash| && IMG_ADDR + size <= |flash| && AllBrought(d, f, jobs, size)
    ensures RamHolds(After(With(d, flash), f, jobs, |jobs|).ram, RAM_ADDR, ImageIn(flash, size))
  {
    hide After;
    hide Brought;
    var ram := After(With(d, flash), f, jobs, |jobs|).ram;
    forall a | RAM_ADDR <= a < RAM_ADDR + size ensures a in ram && ram[a] == ImageIn(flash, size)[a - RAM_ADDR] {
      BroughtHolds(d, flash, f, jobs, a - RAM_ADDR);
    }
  }

  lemma {:induction false} SerialConcat(d: Dev, f: Faults, a: seq<Job>, b: seq<Job>)
    ensures Serial(d, f, a + b).0 == Serial(Serial(d, f, a).0, f, b).0
    decreases |b|
  {
    hide Serve;
    if b == [] {
      assert a + b == a;
    } else {
      var n := |b| - 1;
      assert (a + b)[..|a + b| - 1] == a + b[..n];
      SerialConcat(d, f, a, b[..n]);
    }
  }

  // In any schedule of the flash service, with any other callers: if a CRC of
  // the image region came back good and every byte of the image has been brought
  // by the requests served since, RAM holds exactly the bytes that CRC was taken
  // over.
  lemma CheckedIsCopied(s: State, f: Faults, steps: seq<Step>, r: nat, n: nat, size: nat)
    requires Initial(s) && size > 0
    requires var e := Run(s, f, steps);
      && r < |e.returned| && e.returned[r].value == 0
      && var i := e.returned[r].job;
      && i < n <= e.served <= |e.jobs| && e.jobs[i].req == CrcOf(IMG_ADDR, size)
      && AllBrought(After(s.dev, f, e.jobs, i + 1), f, e.jobs[i + 1..n], size)
    ensures var e := Run(s, f, steps); var measured := After(s.dev, f, e.jobs, e.returned[r].job).flash;
      && IMG_ADDR + size <= |measured|
      && e.returned[r].crcVar == Some(Crc(ImageIn(measured, size)))
      && RamHolds(After(s.dev, f, e.jobs, n).ram, RAM_ADDR, ImageIn(measured, size))
  {
    hide Run;
    hide Initial;
    hide Serial;
    hide Serve;
    hide Crc;
    hide RamHolds;
    hide AllBrought;
    Linearizable(s, f, steps);
    var e := Run(s, f, steps);
    assert ReturnOk(e, s.dev, f, e.returned[r]);
    var i := e.returned[r].job;
    SerialStep(s.dev, f, e.jobs, i);
    GoodCrc(After(s.dev, f, e.jobs, i), f, size);
    var b, since := After(s.dev, f, e.jobs, i + 1), e.jobs[i + 1..n];
    BroughtCopies(b, b.flash, f, since, size);
    assert With(b, b.flash) == b && since[..|since|] == since;
    assert e.jobs[..n] == e.jobs[..i + 1] + since;
    SerialConcat(s.dev, f, e.jobs[..i + 1], since);
  }

  lemma GoodCrc(d: Dev, f: Faults, size: nat)
    requires size > 0 && Serve(d, f, CrcOf(IMG_ADDR, size)).1.ret == 0
    ensures IMG_ADDR + size <= |d.flash|
    ensures var (e, reply) := Serve(d, f, CrcOf(IMG_ADDR, size));
      e.flash == d.flash && e.ram == d.ram && reply.crc == Crc(ImageIn(d.flash, size))
      && e.tick == d.tick + Chunks(size)
  {
    hide Crc;
    ScanSucceeds(d, f, IMG_ADDR, size);
    ScanUnrefused(d, f, IMG_ADDR, size);
  }

  // ------------------------------------------------- the validation's own requests

  function CopyChunk(size: nat, k: nat): Request
    requires k < Chunks(size)
  {
    LoadToRam(IMG_ADDR + CHUNK * k, ChunkLen(size, k), RAM_ADDR + CHUNK * k)
  }

  function CopyJobs(t: Tid, size: nat, n: nat): (jobs: seq<Job>)
    requires n <= Chunks(size)
    ensures |jobs| == n && forall k :: 0 <= k < n ==> jobs[k] == Job(t, CopyChunk(size, k))
    decreases n
  {
    if n == 0 then [] else CopyJobs(t, size, n - 1) + [Job(t, CopyChunk(size, n - 1))]
  }

  lemma CopyJobsLast(t: Tid, size: nat, n: nat)
    requires 0 < n <= Chunks(size)
    ensures var jobs := CopyJobs(t, size, n);
      && jobs[..n] == jobs && jobs[..n - 1] == CopyJobs(t, size, n - 1)
      && jobs[n - 1].req
         == LoadToRam(IMG_ADDR + CHUNK * (n - 1), ChunkLen(size, n - 1), RAM_ADDR + CHUNK * (n - 1))
  {
  }

  lemma {:induction false} CopyJobsLoad(d: Dev, f: Faults, t: Tid, size: nat, n: nat)
    requires n <= Chunks(size) && AllGood(d, f, IMG_ADDR, size, n)
    ensures Serial(d, f, CopyJobs(t, size, n)).0 == Loaded(d, IMG_ADDR, size, RAM_ADDR, n)
    decreases n
  {
    hide *;
    if n > 0 {
      FewerGood(d, f, size, n);
      CopyJobsLoad(d, f, t, size, n - 1);
      CopyJobsLast(t, size, n);
      SerialStep(d, f, CopyJobs(t, size, n), n - 1);
      LoadChunk(d, f, IMG_ADDR, size, RAM_ADDR, n - 1);
    } else {
      NoneLoaded(d, size);
      NoneServed(d, f, t, size);
    }
  }

  lemma NoneServed(d: Dev, f: Faults, t: Tid, size: nat)
    ensures Serial(d, f, CopyJobs(t, size, 0)).0 == d
  {
  }

  lemma FewerGood(d: Dev, f: Faults, size: nat, n: nat)
    requires 0 < n <= Chunks(size) && AllGood(d, f, IMG_ADDR, size, n)
    ensures AllGood(d, f, IMG_ADDR, size, n - 1) && ChunkRet(d, f, IMG_ADDR, size, n - 1) == 0
  {
  }

  lemma NoneLoaded(d: Dev, size: nat)
    ensures Loaded(d, IMG_ADDR, size, RAM_ADDR, 0) == d
  {
    hide StoreRam;
    MovedNone(d, IMG_ADDR, size);
    StoreRamNone(d.ram, RAM_ADDR);
  }

  // A CRC-mode validation that makes its copy does to the device what one CRC
  // request and then the copy's requests do, served in that order.
  lemma ValidationIsJobs(b: Boot, f: Faults, h: Header, t: Tid)
    requires Copies(b, f, h) && h.ctrl == VALIDATION_CRC
    ensures HeaderLegal(h)
    ensures var r := Reach(h.fwSize);
      var jobs := [Job(t, CrcOf(IMG_ADDR, h.fwSize))] + CopyJobs(t, r, Chunks(r));
      Serial(b.dev, f, jobs).0 == Validate(b, f, h).dev
  {
    hide StoreRam;
    hide Digest;
    hide Validate;
    hide Copies;
    hide Serial;
    CopiesExactly(b, f, h);
    var r := Reach(h.fwSize);
    var first, copy := [Job(t, CrcOf(IMG_ADDR, h.fwSize))], CopyJobs(t, r, Chunks(r));
    CopyDevice(b, f, h);
    RefusedInParts(f, b.dev.tick, Chunks(h.fwSize), Chunks(r));
    SerialConcat(b.dev, f, first, copy);
    MeasureServed(b.dev, f, t, h.fwSize);
    CopyServed(b.dev.(tick := b.dev.tick + Chunks(h.fwSize)), f, t, r);
  }

  lemma MeasureServed(d: Dev, f: Faults, t: Tid, size: nat)
    requires size > 0 && IMG_ADDR + size <= |d.flash| && NoneRefused(f, d.tick, Chunks(size))
    ensures Serial(d, f, [Job(t, CrcOf(IMG_ADDR, size))]).0 == d.(tick := d.tick + Chunks(size))
  {
    hide Crc;
    ScanUnrefused(d, f, IMG_ADDR, size);
    var jobs := [Job(t, CrcOf(IMG_ADDR, size))];
    assert jobs[..0] == [];
  }

  lemma UnrefusedGood(d: Dev, f: Faults, size: nat)
    requires IMG_ADDR + size <= |d.flash| && NoneRefused(f, d.tick, Chunks(size))
    ensures AllGood(d, f, IMG_ADDR, size, Chunks(size))
  {
    ScanUnrefused(d, f, IMG_ADDR, size);
    ScanSucceeds(d, f, IMG_ADDR, size);
  }

  lemma CopyServed(d: Dev, f: Faults, t: Tid, size: nat)
    requires IMG_ADDR + size <= |d.flash| && NoneRefused(f, d.tick, Chunks(size))
    ensures Serial(d, f, CopyJobs(t, size, Chunks(size))).0
         == Dev(d.flash, StoreRam(d.ram, RAM_ADDR, ImageIn(d.flash, size)), d.tick + Chunks(size))
  {
    hide StoreRam;
    UnrefusedGood(d, f, size);
    CopyJobsLoad(d, f, t, size, Chunks(size));
    assert Upto(size, Chunks(size)) == size;
  }

  // Undisturbed, the copy brings every byte.
  lemma CopyBrings(d: Dev, f: Faults, t: Tid, size: nat)
    requires IMG_ADDR + size <= |d.flash| && NoneRefused(f, d.tick, Chunks(size))
    ensures AllBrought(d, f, CopyJobs(t, size, Chunks(size)), size)
  {
    hide StoreRam;
    hide Serial;
    hide AllBrought;
    var jobs := CopyJobs(t, size, Chunks(size));
    assert jobs[..|jobs|] == jobs;
    forall flash: seq<byte> | |flash| == |d.flash|
      ensures RamHolds(After(With(d, flash), f, jobs, |jobs|).ram, RAM_ADDR, ImageIn(flash, size))
    {
      CopyServed(With(d, flash), f, t, size);
      StoreRamHolds(d.ram, RAM_ADDR, ImageIn(flash, size));
    }
    CopiedExactly(d, f, jobs, size);
  }

  // ------------------------------------------------------------- when it is not

  // No call under way.
  predicate AtRest(s: State) {
    s.queue == [] && s.worker.Idle? && s.served == |s.jobs| && s.status == STATE_IDLE
  }

  function CallSteps(t: Tid, call: Call): seq<Step> {
    [Begin(t, call)] + ([Put(t)] + (WORKER_PASS + [Finish(t)]))
  }

  // The service after one uncontended call.
  function Called(s: State, f: Faults, t: Tid, call: Call): State
    requires Known(s, t) && !Rejected(call) && Covered(call, s.threads[t].buf)
  {
    var th := s.threads[t];
    var req := RequestOf(call, th.buf);
    var (d, reply) := Serve(s.dev, f, req);
    var done := ThreadServed(Thread(Waiting(call, |s.jobs|), FRESH, th.buf), call, reply);
    var last := done.(cell := done.cell.(result := reply.ret, done := true));
    s.(dev := d, threads := s.threads[t := last.(pc := Ready)], jobs := s.jobs + [Job(t, req)],
       served := s.served + 1, returned := s.returned + [ReturnOf(t, last)])
  }

  lemma CallRuns(s: State, f: Faults, t: Tid, call: Call)
    requires AtRest(s) && Known(s, t) && s.threads[t].pc.Ready? && !Rejected(call) && Covered(call, s.threads[t].buf)
    ensures Run(s, f, CallSteps(t, call)) == Called(s, f, t, call)
    ensures AtRest(Called(s, f, t, call))
  {
    hide Run;
    hide Next;
    hide Serve;
    hide RequestOf;
    hide Rejected;
    hide Covered;
    var s1 := Next(s, f, Begin(t, call));
    var s2 := Next(s1, f, Put(t));
    CallEnters(s, f, t, call);
    PassIsSteps(s2, f);
    var s3 := WorkerPass(s2, f);
    RunMore(s, f, Begin(t, call), [Put(t)] + (WORKER_PASS + [Finish(t)]));
    RunMore(s1, f, Put(t), WORKER_PASS + [Finish(t)]);
    RunParts(s2, f, WORKER_PASS, [Finish(t)]);
    RunLast(s3, f, Finish(t));
    CallLeaves(s3, f, t);
    assert Next(s3, f, Finish(t)).threads == Called(s, f, t, call).threads;
  }

  lemma CallEnters(s: State, f: Faults, t: Tid, call: Call)
    requires AtRest(s) && Known(s, t) && s.threads[t].pc.Ready? && !Rejected(call) && Covered(call, s.threads[t].buf)
    ensures Next(Next(s, f, Begin(t, call)), f, Put(t))
         == s.(threads := s.threads[t := Thread(Waiting(call, |s.jobs|), FRESH, s.threads[t].buf)],
               queue := [Msg(t, call)], jobs := s.jobs + [Job(t, RequestOf(call, s.threads[t].buf))])
  {
    hide Serve;
    hide RequestOf;
    hide Rejected;
    hide Covered;
    var e := Next(Next(s, f, Begin(t, call)), f, Put(t));
    assert e.threads == s.threads[t := Thread(Waiting(call, |s.jobs|), FRESH, s.threads[t].buf)];
  }

  lemma CallLeaves(s: State, f: Faults, t: Tid)
    requires Known(s, t) && s.threads[t].pc.Waiting? && s.threads[t].cell.done
    ensures Next(s, f, Finish(t))
         == s.(threads := s.threads[t := s.threads[t].(pc := Ready)],
               returned := s.returned + [ReturnOf(t, s.threads[t])])
  {
    hide Serve;
  }

  lemma {:induction false} RunParts(s: State, f: Faults, a: seq<Step>, b: seq<Step>)
    ensures Run(s, f, a + b) == Run(Run(s, f, a), f, b)
    decreases |a|
  {
    hide Next;
    if a == [] {
      assert a + b == b;
    } else {
      assert (a + b)[1..] == a[1..] + b;
      RunParts(Next(s, f, a[0]), f, a[1..], b);
    }
  }

  lemma RunLast(s: State, f: Faults, step: Step)
    ensures Run(s, f, [step]) == Next(s, f, step)
  {
    hide Next;
    assert [step][1..] == [];
  }

  function CrcCall(size: nat): Call {
    Call(CRC, IMG_ADDR, size, None, false, true)
  }

  // A host commit of the least size, all ones but its first byte.
  const COMMIT: nat := 32

  function FirstCleared(): (data: seq<byte>)
    ensures |data| == COMMIT && forall i :: 0 <= i < COMMIT ==> data[i] == if i == 0 then 0 else 0xFF
  {
    [0] + Erased(COMMIT - 1)
  }

  const WRITE_FIRST: Call := Call(WRITE, IMG_ADDR, COMMIT, None, true, false)

  function LoadCall(size: nat, k: nat): Call
    requires k < Chunks(size)
  {
    Call(LOAD, IMG_ADDR + CHUNK * k, ChunkLen(size, k), Some(RAM_ADDR + CHUNK * k), false, false)
  }

  lemma CrcServed(s: State, f: Faults, t: Tid, size: nat)
    requires Known(s, t) && 0 < size && IMG_ADDR + size <= |s.dev.flash| && NoneRefused(f, s.dev.tick, Chunks(size))
    ensures var e := Called(s, f, t, CrcCall(size)); var r := e.returned[|s.returned|];
      && e.dev == s.dev.(tick := s.dev.tick + Chunks(size))
      && s.returned < e.returned && |e.returned| == |s.returned| + 1
      && r.value == 0 && r.crcVar == Some(Crc(ImageIn(s.dev.flash, size)))
  {
    hide Crc;
    ScanUnrefused(s.dev, f, IMG_ADDR, size);
    hide ScanOf;
  }

  lemma FirstByteCleared(flash: seq<byte>, size: nat)
    requires size > 0 && IMG_ADDR + size <= |flash| && IMG_ADDR + COMMIT <= |flash|
    ensures ImageIn(Program(flash, IMG_ADDR, FirstCleared()), size) == [0] + ImageIn(flash, size)[1..]
  {
    hide Program;
    var g, want := ImageIn(Program(flash, IMG_ADDR, FirstCleared()), size), [0] + ImageIn(flash, size)[1..];
    forall i | 0 <= i < size ensures g[i] == want[i] {
      ProgramByte(flash, IMG_ADDR, FirstCleared(), IMG_ADDR + i);
      MaskAll(flash[IMG_ADDR + i]);
      ClearedByZero(flash[IMG_ADDR + i]);
      if i > 0 {
        assert want[i] == ImageIn(flash, size)[1..][i - 1] == flash[IMG_ADDR + i];
      }
    }
  }

  lemma ClearedByZero(b: byte)
    ensures b & 0 == 0
  {
  }

  lemma WriteServed(s: State, f: Faults, t: Tid, size: nat)
    requires Known(s, t) && s.threads[t].buf == FirstCleared() && size > 0
    requires IMG_ADDR + size <= |s.dev.flash| && IMG_ADDR + COMMIT <= |s.dev.flash| && f(s.dev.tick) >= 0
    ensures var e := Called(s, f, t, WRITE_FIRST);
      && |e.dev.flash| == |s.dev.flash| && e.dev.ram == s.dev.ram && e.dev.tick == s.dev.tick + 1
      && ImageIn(e.dev.flash, size) == [0] + ImageIn(s.dev.flash, size)[1..]
      && s.returned < e.returned && |e.returned| == |s.returned| + 1 && e.returned[|s.returned|].value == 0
  {
    hide Crc;
    hide Program;
    hide ScanOf;
    assert s.threads[t].buf[..COMMIT] == FirstCleared();
    FirstByteCleared(s.dev.flash, size);
  }

  lemma LoadServed(s: State, f: Faults, t: Tid, size: nat, k: nat)
    requires Known(s, t) && k < Chunks(size)
    ensures !Rejected(LoadCall(size, k)) && Covered(LoadCall(size, k), s.threads[t].buf)
    ensures var e := Called(s, f, t, LoadCall(size, k)); var (d, reply) := Serve(s.dev, f, CopyChunk(size, k));
      && e.dev == d && s.returned < e.returned && |e.returned| == |s.returned| + 1
      && e.returned[|s.returned|].value == reply.ret
      && e.threads.Keys == s.threads.Keys && e.threads[t].pc.Ready?
  {
    hide Serve;
  }

  // The finished calls from number `n` on all succeeded.
  predicate Succeeded(s: State, n: nat) {
    forall i :: n <= i < |s.returned| ==> s.returned[i].value == 0
  }

  // One thread makes the copy's calls, one after the other.
  lemma {:induction false} LoadCalls(s: State, f: Faults, t: Tid, size: nat, n: nat)
    returns (steps: seq<Step>, e: State)
    requires AtRest(s) && Known(s, t) && s.threads[t].pc.Ready?
    requires n <= Chunks(size) && AllGood(s.dev, f, IMG_ADDR, size, n)
    ensures Run(s, f, steps) == e && AtRest(e) && Known(e, t) && e.threads[t].pc.Ready?
    ensures e.dev == Loaded(s.dev, IMG_ADDR, size, RAM_ADDR, n)
    ensures s.returned <= e.returned && Succeeded(e, |s.returned|)
    decreases n
  {
    hide Run;
    hide Serve;
    hide AtRest;
    hide AllGood;
    hide Called;
    hide Rejected;
    hide Covered;
    hide LoadCall;
    hide CallSteps;
    hide StoreRam;
    hide Moved;
    if n == 0 {
      RunEmpty(s, f);
      NoneLoaded(s.dev, size);
      steps, e := [], s;
    } else {
      FewerGood(s.dev, f, size, n);
      var before, b := LoadCalls(s, f, t, size, n - 1);
      LoadChunk(s.dev, f, IMG_ADDR, size, RAM_ADDR, n - 1);
      LoadServed(b, f, t, size, n - 1);
      CallRuns(b, f, t, LoadCall(size, n - 1));
      RunParts(s, f, before, CallSteps(t, LoadCall(size, n - 1)));
      steps, e := before + CallSteps(t, LoadCall(size, n - 1)), Called(b, f, t, LoadCall(size, n - 1));
    }
  }

  lemma RunEmpty(s: State, f: Faults)
    ensures Run(s, f, []) == s
  {
  }

  // The condition is needed: for an image of any size, a host commit served
  // between its measurement and its copy puts into RAM bytes the good CRC was
  // not taken over, every call returning success.
  lemma DisturbedCopy(s: State, f: Faults, v: Tid, h: Tid, size: nat)
    returns (steps: seq<Step>, e: State, data: seq<byte>)
    requires AtRest(s) && Known(s, v) && Known(s, h) && v != h && s.returned == []
    requires s.threads[v].pc.Ready? && s.threads[h].pc.Ready? && s.threads[h].buf == FirstCleared()
    requires 0 < size && IMG_ADDR + size <= |s.dev.flash| && IMG_ADDR + COMMIT <= |s.dev.flash|
    requires s.dev.flash[IMG_ADDR] != 0 && NoneRefused(f, s.dev.tick, 2 * Chunks(size) + 1)
    ensures Run(s, f, steps) == e && e.returned != [] && Succeeded(e, 0)
    ensures |data| == size && RamHolds(e.dev.ram, RAM_ADDR, data)
    ensures e.returned[0].crcVar.Some? && e.returned[0].crcVar.value != Crc(data)
  {
    hide Run;
    hide Crc;
    hide CallSteps;
    hide StoreRam;
    hide AllGood;
    RefusedInParts(f, s.dev.tick, Chunks(size), 1 + Chunks(size));
    RefusedInParts(f, s.dev.tick + Chunks(size), 1, Chunks(size));
    CallRuns(s, f, v, CrcCall(size));
    CrcServed(s, f, v, size);
    var s1 := Called(s, f, v, CrcCall(size));
    assert f(s1.dev.tick) >= 0;
    CallRuns(s1, f, h, WRITE_FIRST);
    WriteServed(s1, f, h, size);
    var s2 := Called(s1, f, h, WRITE_FIRST);
    UnrefusedGood(s2.dev, f, size);
    hide Called;
    var loads, last := LoadCalls(s2, f, v, size, Chunks(size));
    var a, b := CallSteps(v, CrcCall(size)), CallSteps(h, WRITE_FIRST);
    RunParts(s, f, a, b);
    RunParts(s, f, a + b, loads);
    steps, e, data := a + b + loads, last, ImageIn(s2.dev.flash, size);
    LoadedAll(s2.dev, size);
    CrcChanges(ImageIn(s.dev.flash, size));
    assert e.returned[0] == s1.returned[0] && e.returned[1] == s2.returned[1];
  }

  lemma LoadedAll(d: Dev, size: nat)
    requires IMG_ADDR + size <= |d.flash|
    ensures RamHolds(Loaded(d, IMG_ADDR, size, RAM_ADDR, Chunks(size)).ram, RAM_ADDR, ImageIn(d.flash, size))
  {
    hide StoreRam;
    assert Upto(size, Chunks(size)) == size;
    StoreRamHolds(d.ram, RAM_ADDR, ImageIn(d.flash, size));
  }

  lemma CrcChanges(image: seq<byte>)
    requires image != [] && image[0] != 0
    ensures Crc([0] + image[1..]) != Crc(image)
  {
    hide Crc;
    BurstDetected([], [image[0]], [0], image[1..]);
    assert [] + [image[0]] + image[1..] == image;
    assert [] + [0] + image[1..] == [0] + image[1..];
  }
}

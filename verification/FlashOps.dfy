/**
 What one flash request does when it runs: `flash_service_execute` of
 `service/flash/service.c` as a function of the device state.
 */
module FlashOps {
  import opened Crc32
  import opened Device

  datatype Request =
    | Write(addr: int, data: seq<byte>)
    | Read(addr: int, size: nat)
    | EraseAt(addr: int, size: nat)
    | CrcOf(addr: int, size: nat)
    | LoadToRam(addr: int, size: nat, dst: nat)

  // `data` is what a Read stored through the caller's pointer, `crc` what a
  // CrcOf stored in its result cell.
  datatype Reply = Reply(ret: int, data: seq<byte>, crc: bv32)

  function Size(req: Request): nat {
    match req
    case Write(_, data) => |data|
    case Read(_, size) => size
    case EraseAt(_, size) => size
    case CrcOf(_, size) => size
    case LoadToRam(_, size, _) => size
  }

  predicate Malformed(req: Request) {
    req.addr < 0 || Size(req) == 0
  }

  function Serve(d: Dev, f: Faults, req: Request): (r: (Dev, Reply))
    ensures |r.0.flash| == |d.flash|
    ensures r.1.ret <= 0
  {
    if Malformed(req) then (d, Reply(EINVAL, [], 0))
    else if req.CrcOf? then
      var scan := ScanOf(d, f, req.addr, req.size);
      ScanSucceeds(d, f, req.addr, req.size);
      (d.(tick := scan.tick), Reply(scan.ret, [], Crc(scan.bytes)))
    else
      var ret := Ret(d, f, req.addr, Size(req));
      var d' := d.(tick := d.tick + 1);
      if ret < 0 then (d', Reply(ret, [], 0))
      else
        match req
        case Write(addr, data) => (d'.(flash := Program(d.flash, addr, data)), Reply(0, [], 0))
        case Read(addr, size) => (d', Reply(0, d.flash[addr..addr + size], 0))
        case EraseAt(addr, size) => (d'.(flash := Erase(d.flash, addr, size)), Reply(0, [], 0))
        case LoadToRam(addr, size, dst) =>
          (d'.(ram := StoreRam(d.ram, dst, d.flash[addr..addr + size])), Reply(0, [], 0))
  }

  lemma ServeMalformed(d: Dev, f: Faults, req: Request)
    requires Malformed(req)
    ensures Serve(d, f, req) == (d, Reply(EINVAL, [], 0))
  {
  }

  // The device after the first `k` chunks of a copy to RAM.
  function Loaded(d: Dev, addr: int, size: nat, dst: nat, k: nat): Dev {
    Dev(d.flash, StoreRam(d.ram, dst, Moved(d, addr, size, k)), d.tick + k)
  }

  lemma ServeLoad(d: Dev, f: Faults, addr: nat, size: nat, dst: nat)
    requires size > 0
    ensures Serve(d, f, LoadToRam(addr, size, dst)).1.ret == Ret(d, f, addr, size)
    ensures Ret(d, f, addr, size) == 0 ==>
              Serve(d, f, LoadToRam(addr, size, dst)).0
              == Dev(d.flash, StoreRam(d.ram, dst, d.flash[addr..addr + size]), d.tick + 1)
    ensures Ret(d, f, addr, size) < 0 ==> Serve(d, f, LoadToRam(addr, size, dst)).0 == d.(tick := d.tick + 1)
  {
    hide Crc;
    hide StoreRam;
    hide ScanOf;
  }

  lemma LoadChunk(d: Dev, f: Faults, addr: nat, size: nat, dst: nat, k: nat)
    requires AllGood(d, f, addr, size, k) && k < Chunks(size)
    ensures var (d', reply) :=
        Serve(Loaded(d, addr, size, dst, k), f, LoadToRam(addr + CHUNK * k, ChunkLen(size, k), dst + CHUNK * k));
      && ChunkLen(size, k) > 0
      && reply.ret == ChunkRet(d, f, addr, size, k)
      && (reply.ret == 0 ==> d' == Loaded(d, addr, size, dst, k + 1))
      && (reply.ret < 0 ==> d' == Loaded(d, addr, size, dst, k).(tick := d.tick + k + 1))
  {
    hide Serve;
    hide StoreRam;
    hide Moved;
    hide AllGood;
    ServeLoad(Loaded(d, addr, size, dst, k), f, addr + CHUNK * k, ChunkLen(size, k), dst + CHUNK * k);
    if ChunkRet(d, f, addr, size, k) == 0 {
      ChunkGood(d, f, addr, size, k);
      StoreRamConcat(d.ram, dst, Moved(d, addr, size, k),
                     d.flash[addr + CHUNK * k..addr + CHUNK * k + ChunkLen(size, k)]);
    }
  }
}

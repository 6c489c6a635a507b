/**
 The bootloader's storage driver (`driver/storage_bootloader.c`): image
 measurement in 512-byte chunks, validation, the copy to program RAM, and the
 boot info kept in retention RAM.
 */
module Storage {
  import opened Crc32
  import opened Device
  import opened FlashOps
  import opened Folds
  import opened Image
  import opened Wrappers

  const HDR_ADDR: nat := 0x11000
  const IMG_ADDR: nat := 0x11020
  const RAM_ADDR: nat := 0xD0000
  const IMAGE_SIZE_LIMIT: nat := 464 * 1024

  // The bootloader's data, stacks and queue, then its retention area, in the
  // way of a copy that runs upward from RAM_ADDR.
  const OWN_RAM: nat := 0x118000
  const OWN_RAM_END: nat := 0x127800
  const COPY_LIMIT: nat := OWN_RAM - RAM_ADDR

  const BOOT_FAIL_LIMIT: nat := 3
  const BOOT_INFO_VERSION: nat := 1

  const MODE_NORMAL: nat := 0x00
  const MODE_STAY: nat := 0xDC
  const REASON_UNKNOWN: nat := 0
  const REASON_POR: nat := 1
  const STATE_IDLE: nat := 0x0B
  const STATE_BUSY: nat := 0xFF
  const CRC_PASSED: nat := 0xAC
  const CRC_FAILED: nat := 0xFA
  const ACT_BOOT_INTACT: bv8 := 0x01
  const ACT_MAIN_INTACT: bv8 := 0x04
  const BK_MAIN_INTACT: bv8 := 0x08
  const STATUS_VALID: bv8 := 0x80

  datatype BootInfo = BootInfo(
    version: nat, mode: nat, resetReason: nat, lastResetReason: nat, failCount: nat,
    corruption: bv8, lastCrcStatus: nat, status: nat, lastCrcValue: nat)

  // `retained` is None when the retention area fails its own check; `entered`
  // is the address jumped to, after which the bootloader runs no further;
  // `overrun` says that a copy has reached the bootloader's own memory, after
  // which nothing determines what it does.
  datatype Boot = Boot(dev: Dev, info: BootInfo, retained: Option<BootInfo>, entered: Option<int>, overrun: bool)

  const ZERO_INFO: BootInfo := BootInfo(0, 0, 0, 0, 0, 0, 0, 0, 0)
  const ZERO_HEADER: Header := Header(0, 0, 0, Version(0, 0, 0), 0, Version(0, 0, 0), 0, 0, 0, [0, 0, 0, 0, 0, 0])

  // ----------------------------------------------------------- specification

  function Saved(b: Boot): Boot {
    b.(retained := Some(b.info))
  }

  function ClearMainIntact(c: bv8): bv8 {
    c & !ACT_MAIN_INTACT
  }

  function SetMainIntact(c: bv8): bv8 {
    c | ACT_MAIN_INTACT
  }

  predicate MainIntact(c: bv8) {
    c & ACT_MAIN_INTACT != 0
  }

  lemma MainIntactBit(c: bv8)
    ensures MainIntact(SetMainIntact(c)) && !MainIntact(ClearMainIntact(c))
  {
  }

  function InfoAfterFail(i: BootInfo): BootInfo {
    var n := if i.failCount < 255 then i.failCount + 1 else i.failCount;
    i.(corruption := ClearMainIntact(i.corruption),
       failCount := n,
       mode := if n >= BOOT_FAIL_LIMIT then MODE_STAY else i.mode)
  }

  function MarkFail(b: Boot): Boot {
    Saved(b.(info := InfoAfterFail(b.info)))
  }

  predicate HeaderLegal(h: Header) {
    h.magic == MAGIC && 0 < h.fwSize <= IMAGE_SIZE_LIMIT && 0 <= h.ctrl <= VALIDATION_CHECKSUM
  }

  // The value the measurement reports: the CRC request leaves the caller's
  // variable alone when it fails, the checksum loop stores as it goes.
  function Measured(ctrl: int, scan: Scan): nat {
    if ctrl == VALIDATION_CHECKSUM || scan.ret == 0 then Digest(ctrl, scan.bytes) else 0
  }

  function ImageScan(d: Dev, f: Faults, h: Header): Scan
    requires h.fwSize >= 0
  {
    ScanOf(d, f, IMG_ADDR, h.fwSize)
  }

  predicate DigestPasses(d: Dev, f: Faults, h: Header)
    requires h.fwSize >= 0
  {
    ImageScan(d, f, h).ret == 0 && Measured(h.ctrl, ImageScan(d, f, h)) == h.check
  }

  // The state once the digest, if any, has been computed and recorded.
  function AfterDigest(b: Boot, f: Faults, h: Header): Boot
    requires HeaderLegal(h)
  {
    if h.ctrl == VALIDATION_NONE then b
    else
      var scan := ImageScan(b.dev, f, h);
      b.(dev := b.dev.(tick := scan.tick),
         info := b.info.(
           lastCrcValue := Measured(h.ctrl, scan),
           lastCrcStatus := if DigestPasses(b.dev, f, h) then CRC_PASSED else CRC_FAILED,
           status := if h.ctrl == VALIDATION_CRC then STATE_IDLE else b.info.status))
  }

  predicate Accepts(b: Boot, f: Faults, h: Header) {
    HeaderLegal(h) && (h.ctrl != VALIDATION_NONE ==> DigestPasses(b.dev, f, h))
  }

  // As much of a copy as the bootloader lives to make: up to and with the first
  // chunk that falls on its own memory.
  function Reach(size: nat): nat {
    if size <= COPY_LIMIT + CHUNK then size else COPY_LIMIT + CHUNK
  }

  // The copy to RAM, a request per chunk.
  function AfterLoad(b: Boot, f: Faults, size: nat): Boot
    requires size > 0
  {
    var scan := ScanOf(b.dev, f, IMG_ADDR, Reach(size));
    b.(dev := b.dev.(tick := scan.tick, ram := StoreRam(b.dev.ram, RAM_ADDR, scan.bytes)),
       info := b.info.(status := STATE_IDLE))
  }

  predicate Loads(b: Boot, f: Faults, h: Header)
    requires h.fwSize >= 0
  {
    ScanOf(b.dev, f, IMG_ADDR, Reach(h.fwSize)).ret == 0
  }

  function Launched(b: Boot, load: int): Boot {
    Saved(b.(info := b.info.(mode := MODE_NORMAL, failCount := 0, corruption := SetMainIntact(b.info.corruption))))
    .(entered := Some(load))
  }

  function Validate(b: Boot, f: Faults, h: Header): Boot {
    if !HeaderLegal(h) then MarkFail(b)
    else
      var b1 := AfterDigest(b, f, h);
      if !Accepts(b, f, h) then MarkFail(b1)
      else if b1.info.mode == MODE_STAY then b1
      else if !Loads(b1, f, h) then MarkFail(AfterLoad(b1, f, h.fwSize))
      else if h.fwSize > COPY_LIMIT then AfterLoad(b1, f, h.fwSize).(overrun := true)
      else Launched(AfterLoad(b1, f, h.fwSize), h.loadAddress)
  }

  // What the header read delivers; a refused read leaves the zeroed variable.
  function HeaderSeen(d: Dev, f: Faults): Header {
    if Ret(d, f, HDR_ADDR, HEADER_SIZE) == 0 then Decode(d.flash[HDR_ADDR..HDR_ADDR + HEADER_SIZE])
    else ZERO_HEADER
  }

  function AfterHeaderRead(b: Boot): Boot {
    b.(dev := b.dev.(tick := b.dev.tick + 1))
  }

  // Read the header, then validate: what `main` and the exit work item do.
  function ReadAndValidate(b: Boot, f: Faults): Boot {
    Validate(AfterHeaderRead(b), f, HeaderSeen(b.dev, f))
  }

  predicate RetentionUsable(r: Option<BootInfo>) {
    r.Some? && r.value.version == BOOT_INFO_VERSION
  }

  function InfoAtBoot(r: Option<BootInfo>): BootInfo {
    var i :=
      if RetentionUsable(r) then r.value.(lastResetReason := r.value.resetReason)
      else ZERO_INFO.(
        version := BOOT_INFO_VERSION, mode := MODE_NORMAL, lastResetReason := REASON_POR,
        corruption := STATUS_VALID | ACT_MAIN_INTACT | ACT_BOOT_INTACT, lastCrcStatus := CRC_PASSED);
    i.(status := STATE_IDLE, resetReason := REASON_UNKNOWN)
  }

  function AfterInit(b: Boot): Boot {
    Saved(b.(info := InfoAtBoot(b.retained)))
  }

  // A flash request issued by the bootloader itself; the service's status byte
  // returns to idle once the worker has run it.
  function Requested(b: Boot, f: Faults, req: Request): (Boot, Reply) {
    var (d, reply) := Serve(b.dev, f, req);
    (b.(dev := d, info := if Malformed(req) then b.info else b.info.(status := STATE_IDLE)), reply)
  }

  // ----------------------------------------------------------------- the driver

  class Driver {
    const faults: Faults
    var flash: seq<byte>
    var ram: map<nat, byte>
    var tick: nat
    var info: BootInfo
    var retained: Option<BootInfo>
    var entered: Option<int>
    var overrun: bool
    const crcBuf: array<byte>

    ghost predicate Valid()
    {
      crcBuf.Length == CHUNK
    }

    ghost function Device(): Dev
      reads this
    {
      Dev(flash, ram, tick)
    }

    ghost function View(): Boot
      reads this
    {
      Boot(Device(), info, retained, entered, overrun)
    }

    constructor (faults: Faults, flash: seq<byte>, retained: Option<BootInfo>)
      ensures Valid() && fresh(crcBuf)
      ensures this.faults == faults
      ensures View() == Boot(Dev(flash, map[], 0), ZERO_INFO, retained, None, false)
    {
      this.faults := faults;
      this.flash := flash;
      ram := map[];
      tick := 0;
      info := ZERO_INFO;
      this.retained := retained;
      entered, overrun := None, false;
      crcBuf := new byte[CHUNK];
    }

    method ReadFlash(addr: int, buf: array<byte>, len: nat) returns (ret: int)
      requires len <= buf.Length
      modifies this`tick, buf
      ensures ret == CallRet(faults, old(tick), |flash|, addr, len) && tick == old(tick) + 1
      ensures ret == 0 ==> buf[..len] == flash[addr..addr + len]
      ensures ret < 0 ==> buf[..] == old(buf[..])
    {
      ret := CallRet(faults, tick, |flash|, addr, len);
      tick := tick + 1;
      if ret == 0 {
        forall i | 0 <= i < len {
          buf[i] := flash[addr + i];
        }
      }
    }

    method GetImageHeader(buf: array<byte>) returns (ret: int)
      requires buf.Length == HEADER_SIZE
      modifies this`tick, buf
      ensures ret == Ret(old(Device()), faults, HDR_ADDR, HEADER_SIZE) && tick == old(tick) + 1
      ensures ret == 0 ==> buf[..] == flash[HDR_ADDR..HDR_ADDR + HEADER_SIZE]
      ensures ret < 0 ==> buf[..] == old(buf[..])
    {
      ret := ReadFlash(HDR_ADDR, buf, HEADER_SIZE);
      assert buf[..] == buf[..HEADER_SIZE];
    }

    // The chunk loop returns the CRC of everything it managed to read, in one
    // piece: on success, of the whole region.
    method CalImageCrc(addr: int, size: nat) returns (ret: int, crc: bv32)
      requires Valid()
      modifies this`tick, crcBuf
      ensures var scan := ScanOf(old(Device()), faults, addr, size);
        ret == scan.ret && crc == Crc(scan.bytes) && tick == scan.tick
    {
      hide ByteStep;
      hide Xor;
      hide ScanOf;
      hide Moved;
      ghost var d := Device();
      CrcOfNothing();
      MovedNone(d, addr, size);
      crc := 0;
      var a := 0;
      ghost var k := 0;
      while a < size
        invariant AllGood(d, faults, addr, size, k) && a == CHUNK * k && tick == d.tick + k
        invariant crc == Crc(Moved(d, addr, size, k))
        decreases size - a
      {
        var n := if size - a < CHUNK then size - a else CHUNK;
        ret := ReadFlash(addr + a, crcBuf, n);
        if ret < 0 {
          ScanStops(d, faults, addr, size, k);
          return;
        }
        ChunkGood(d, faults, addr, size, k);
        UpdateConcat(0, Moved(d, addr, size, k), crcBuf[..n]);
        crc := Update(crc, crcBuf[..n]);
        a := a + CHUNK;
        k := k + 1;
      }
      ScanStops(d, faults, addr, size, k);
      ret := 0;
    }

    method CalChecksum(start: nat, size: nat) returns (sum: nat)
      requires Valid() && size <= CHUNK
      ensures sum == Fold(SumStep, start, crcBuf[..size])
    {
      sum := start;
      for i := 0 to size
        invariant sum == Fold(SumStep, start, crcBuf[..i])
      {
        FoldSnoc(SumStep, start, crcBuf[..size], i);
        assert crcBuf[..size][..i] == crcBuf[..i] && crcBuf[..size][..i + 1] == crcBuf[..i + 1];
        sum := SumStep(sum, crcBuf[i]);
      }
    }

    method CalImageChecksum(addr: int, size: nat) returns (ret: int, sum: nat)
      requires Valid()
      modifies this`tick, crcBuf
      ensures var scan := ScanOf(old(Device()), faults, addr, size);
        ret == scan.ret && sum == Sum32(scan.bytes) && tick == scan.tick
    {
      hide SumStep;
      hide ScanOf;
      hide Moved;
      ghost var d := Device();
      MovedNone(d, addr, size);
      sum := 0;
      var a := 0;
      ghost var k := 0;
      while a < size
        invariant AllGood(d, faults, addr, size, k) && a == CHUNK * k && tick == d.tick + k
        invariant sum == Sum32(Moved(d, addr, size, k))
        decreases size - a
      {
        var n := if size - a < CHUNK then size - a else CHUNK;
        ret := ReadFlash(addr + a, crcBuf, n);
        if ret < 0 {
          ScanStops(d, faults, addr, size, k);
          return;
        }
        ChunkGood(d, faults, addr, size, k);
        FoldConcat(SumStep, 0, Moved(d, addr, size, k), crcBuf[..n]);
        sum := CalChecksum(sum, n);
        a := a + CHUNK;
        k := k + 1;
      }
      ScanStops(d, faults, addr, size, k);
      ret := 0;
    }

    // `flash_service_execute`.
    method Execute(req: Request) returns (reply: Reply)
      requires Valid()
      modifies this`flash, this`ram, this`tick, crcBuf
      ensures (Device(), reply) == Serve(old(Device()), faults, req)
    {
      hide Crc;
      hide Program;
      hide Erase;
      hide StoreRam;
      hide ScanOf;
      if req.addr < 0 || Size(req) == 0 {
        return Reply(EINVAL, [], 0);
      }
      if req.CrcOf? {
        var ret, crc := CalImageCrc(req.addr, req.size);
        return Reply(ret, [], crc);
      }
      var ret := CallRet(faults, tick, |flash|, req.addr, Size(req));
      tick := tick + 1;
      reply := Reply(ret, [], 0);
      if ret == 0 {
        match req
        case Write(addr, data) => flash := Program(flash, addr, data);
        case EraseAt(addr, size) => flash := Erase(flash, addr, size);
        case Read(addr, size) => reply := Reply(0, flash[addr..addr + size], 0);
        case LoadToRam(addr, size, dst) => ram := StoreRam(ram, dst, flash[addr..addr + size]);
      }
    }

    // `flash_service_request` as its caller sees it: the request runs between
    // other requests and the status reads busy only meanwhile.
    method FlashRequest(req: Request) returns (reply: Reply)
      requires Valid()
      modifies this`flash, this`ram, this`tick, this`info, crcBuf
      ensures (Device(), reply) == Serve(old(Device()), faults, req)
      ensures info == if Malformed(req) then old(info) else old(info).(status := STATE_IDLE)
      ensures (View(), reply) == Requested(old(View()), faults, req)
    {
      hide Serve;
      if req.addr < 0 || Size(req) == 0 {
        ServeMalformed(Device(), faults, req);
        return Reply(EINVAL, [], 0);
      }
      info := info.(status := STATE_BUSY);
      reply := Execute(req);
      info := info.(status := STATE_IDLE);
    }

    // The source's loop runs to `size`; what it does once a chunk has landed on
    // its own memory is not its own any more, and is not modelled.
    method LoadImageToRam(addr: int, size: nat) returns (ret: int)
      requires Valid() && addr >= 0 && size > 0 && !overrun
      modifies this`flash, this`ram, this`tick, this`info, this`overrun, crcBuf
      ensures overrun == (ret == 0 && size > COPY_LIMIT)
      ensures var scan := ScanOf(old(Device()), faults, addr, Reach(size));
        ret == scan.ret
        && Device() == Dev(old(flash), StoreRam(old(ram), RAM_ADDR, scan.bytes), scan.tick)
        && info == old(info).(status := STATE_IDLE)
    {
      hide Serve;
      hide StoreRam;
      hide ScanOf;
      hide Moved;
      hide FirstBad;
      hide Upto;
      hide AllGood;
      hide ChunkRet;
      ghost var d, r := Device(), Reach(size);
      AllGoodNone(d, faults, addr, r);
      MovedNone(d, addr, r);
      StoreRamNone(d.ram, RAM_ADDR);
      var a := 0;
      ghost var k := 0;
      while a < size
        invariant AllGood(d, faults, addr, r, k) && a == CHUNK * k <= COPY_LIMIT && !overrun
        invariant Device() == Loaded(d, addr, r, RAM_ADDR, k)
        invariant info == if k == 0 then old(info) else old(info).(status := STATE_IDLE)
        decreases size - a
      {
        AllGoodRange(d, faults, addr, r, k);
        MoreChunks(r, k);
        LoadChunk(d, faults, addr, r, RAM_ADDR, k);
        ScanStops(d, faults, addr, r, k);
        var n := if size - a < CHUNK then size - a else CHUNK;
        var reply := FlashRequest(LoadToRam(addr + a, n, RAM_ADDR + a));
        if reply.ret < 0 {
          return reply.ret;
        }
        ChunkGood(d, faults, addr, r, k);
        k := k + 1;
        if RAM_ADDR + a + n > OWN_RAM {
          overrun := true;
          break;
        }
        a := a + CHUNK;
      }
      AllGoodRange(d, faults, addr, r, k);
      MoreChunks(r, k);
      ScanStops(d, faults, addr, r, k);
      ret := 0;
    }

    method BootInfoSave()
      modifies this`retained
      ensures View() == Saved(old(View()))
    {
      retained := Some(info);
    }

    method BootInfoMarkFail()
      modifies this`info, this`retained
      ensures View() == MarkFail(old(View()))
    {
      hide ClearMainIntact;
      info := info.(corruption := ClearMainIntact(info.corruption));
      if info.failCount < 255 {
        info := info.(failCount := info.failCount + 1);
      }
      if info.failCount >= BOOT_FAIL_LIMIT {
        info := info.(mode := MODE_STAY);
      }
      BootInfoSave();
    }

    // Records the digest; the result tells whether it matched.
    method CheckDigest(h: Header) returns (ok: bool)
      requires Valid() && HeaderLegal(h) && h.ctrl != VALIDATION_NONE
      modifies this`flash, this`ram, this`tick, this`info, crcBuf
      ensures View() == AfterDigest(old(View()), faults, h)
      ensures ok <==> DigestPasses(old(Device()), faults, h)
    {
      hide Crc;
      hide U32;
      var useChecksum := h.ctrl == VALIDATION_CHECKSUM;
      var value: nat := 0;
      var ret: int;
      ScanSucceeds(Device(), faults, IMG_ADDR, h.fwSize);
      if useChecksum {
        ret, value := CalImageChecksum(IMG_ADDR, h.fwSize);
      } else {
        var reply := FlashRequest(CrcOf(IMG_ADDR, h.fwSize));
        ret := reply.ret;
        if ret == 0 {
          value := U32(reply.crc);
        }
      }
      ok := ret == 0 && value == h.check;
      info := info.(lastCrcValue := value, lastCrcStatus := if ok then CRC_PASSED else CRC_FAILED);
    }

    method ValidateImageHeader(h: Header) returns (jumped: bool)
      requires Valid() && entered == None && !overrun
      modifies this, crcBuf
      ensures View() == Validate(old(View()), faults, h)
      ensures jumped <==> entered.Some?
    {
      jumped := false;
      if h.magic != MAGIC {
        BootInfoMarkFail();
        return;
      }
      if h.fwSize <= 0 || h.fwSize > IMAGE_SIZE_LIMIT {
        BootInfoMarkFail();
        return;
      }
      if h.ctrl < 0 || h.ctrl > VALIDATION_CHECKSUM {
        BootInfoMarkFail();
        return;
      }
      if h.ctrl != VALIDATION_NONE {
        var ok := CheckDigest(h);
        if !ok {
          BootInfoMarkFail();
          return;
        }
      }
      if info.mode == MODE_STAY {
        return;
      }
      ScanSucceeds(Device(), faults, IMG_ADDR, Reach(h.fwSize));
      var ret := LoadImageToRam(IMG_ADDR, h.fwSize);
      if ret < 0 {
        BootInfoMarkFail();
        return;
      }
      if overrun {
        return;
      }
      info := info.(mode := MODE_NORMAL, failCount := 0, corruption := SetMainIntact(info.corruption));
      BootInfoSave();
      entered := Some(h.loadAddress);
      jumped := true;
    }

    method InitConfig()
      modifies this`info, this`retained
      ensures View() == AfterInit(old(View()))
    {
      if retained.Some? && retained.value.version == BOOT_INFO_VERSION {
        info := retained.value;
        info := info.(lastResetReason := info.resetReason);
      } else {
        info := ZERO_INFO;
        info := info.(version := BOOT_INFO_VERSION, mode := MODE_NORMAL, lastResetReason := REASON_POR);
        info := info.(corruption := STATUS_VALID | ACT_MAIN_INTACT | ACT_BOOT_INTACT, lastCrcStatus := CRC_PASSED);
      }
      info := info.(status := STATE_IDLE, resetReason := REASON_UNKNOWN);
      BootInfoSave();
    }

    // The bootloader's `main`, and the body of its exit work item.
    method ReadHeaderAndValidate()
      requires Valid() && entered == None && !overrun
      modifies this, crcBuf
      ensures View() == ReadAndValidate(old(View()), faults)
    {
      hide Validate;
      hide Decode;
      hide Slice;
      var hdr := new byte[HEADER_SIZE](_ => 0);
      var ret := GetImageHeader(hdr);
      var h := ZERO_HEADER;
      if ret == 0 {
        h := Decode(hdr[..]);
      }
      var _ := ValidateImageHeader(h);
    }
  }

  lemma CrcOfNothing()
    ensures Crc([]) == 0
  {
    XorCancel(0, ONES);
  }
}

/**
 The firmware-update commands of the bootloader
 (`service/acpi/ec_fw_update_bootloader.c`): erase, stage, commit, run-CRC, and
 entering and leaving the bootloader.  A command is its raw bytes, opcode first.
 */
module FwUpdate {
  import opened Crc32
  import opened Device
  import opened FlashOps
  import opened Image
  import opened Storage
  import opened Wrappers

  const OP_STAGE: nat := 0xA0
  const OP_COMMIT: nat := 0xAA
  const OP_ERASE_REGION: nat := 0xAE
  const OP_ERASE_PARTITION: nat := 0xAF
  const OP_SPI: nat := 0xBB

  const PATH_INT: nat := 0x4F
  const PATH_AUTO: nat := 0xEA

  const SUB_ENTER: nat := 0xDC
  const SUB_EXIT: nat := 0x33
  const SUB_RUN_CRC: nat := 0xF0
  const SUB_RESET: nat := 0xCC
  const QUICK_ERASE_MAIN: nat := 0x21

  // Host addresses start at 0x8000 where the flash has 0x11000.
  const HOST_OFFSET: nat := 0x9000
  const SECTOR: nat := 4096
  const RAM_BUFFER_SIZE: nat := 512
  const MAIN_SIZE: nat := 0x32000
  const REASON_HOST_REQ: nat := 2
  const REASON_WDT: nat := 3
  const REASON_PANIC: nat := 4

  datatype Session = Session(boot: Boot, buffer: seq<byte>, len: nat, cursor: nat, exitPending: bool)

  // ----------------------------------------------------------- specification

  function At(cmd: seq<byte>, i: nat): nat
    requires i < |cmd|
  {
    Val(cmd[i])
  }

  function Address(cmd: seq<byte>): nat
    requires |cmd| >= 7
  {
    Le(cmd[4..7])
  }

  function EraseRegion(s: Session, f: Faults, cmd: seq<byte>): (Session, int) {
    if |cmd| < 7 then (s, EINVAL)
    else
      var (b, reply) := Requested(s.boot, f, EraseAt(Address(cmd) + HOST_OFFSET, At(cmd, 3) * SECTOR));
      (s.(boot := b), reply.ret)
  }

  function ClearBackupIntact(c: bv8): bv8 {
    c & !BK_MAIN_INTACT
  }

  function ErasePartition(s: Session, f: Faults, cmd: seq<byte>): (Session, int) {
    if |cmd| < 3 then (s, EINVAL)
    else if At(cmd, 2) != QUICK_ERASE_MAIN then (s.(boot := Saved(s.boot)), 0)
    else
      var marked := s.boot.(info := s.boot.info.(corruption := ClearBackupIntact(s.boot.info.corruption)));
      var (b, reply) := Requested(marked, f, EraseAt(HDR_ADDR, MAIN_SIZE));
      (s.(boot := Saved(b), cursor := HDR_ADDR), reply.ret)
  }

  // Only a full 512-byte payload passes both the framework's minimum and the
  // handler's maximum.
  function Stage(s: Session, cmd: seq<byte>): (Session, int) {
    if |cmd| != RAM_BUFFER_SIZE + 1 then (s, EINVAL)
    else (s.(buffer := cmd[1..], len := RAM_BUFFER_SIZE), 0)
  }

  function Min(a: nat, b: nat): nat {
    if a < b then a else b
  }

  function CommitSize(s: Session, cmd: seq<byte>): nat
    requires |cmd| >= 7
  {
    Min(At(cmd, 3) * 32, s.len)
  }

  function CommitTarget(s: Session, cmd: seq<byte>): Option<nat>
    requires |cmd| >= 7
  {
    if At(cmd, 2) == PATH_INT then Some(Address(cmd) + HOST_OFFSET)
    else if At(cmd, 2) == PATH_AUTO then Some(s.cursor)
    else None
  }

  predicate BufferFits(s: Session) {
    |s.buffer| == RAM_BUFFER_SIZE && s.len <= RAM_BUFFER_SIZE
  }

  function Commit(s: Session, f: Faults, cmd: seq<byte>): (Session, int)
    requires BufferFits(s)
  {
    if |cmd| < 7 || CommitTarget(s, cmd) == None then (s, EINVAL)
    else
      var n := CommitSize(s, cmd);
      var (b, reply) := Requested(s.boot, f, Write(CommitTarget(s, cmd).value, s.buffer[..n]));
      (s.(boot := b, cursor := if reply.ret < 0 then s.cursor else (s.cursor + n) % U32_LIMIT), reply.ret)
  }

  // 0xBB 0xF0.
  function CrcRecorded(b: Boot, value: nat, passed: bool): Boot {
    Saved(b.(info := b.info.(
      lastCrcValue := value,
      lastCrcStatus := if passed then CRC_PASSED else CRC_FAILED,
      corruption := if passed then SetMainIntact(b.info.corruption) else ClearMainIntact(b.info.corruption))))
  }

  function RunCrc(b: Boot, f: Faults): Boot {
    var h := HeaderSeen(b.dev, f);
    var b1 := AfterHeaderRead(b);
    if h.fwSize <= 0 || h.fwSize > IMAGE_SIZE_LIMIT then CrcRecorded(b1, 0, false)
    else
      var (b2, reply) := Requested(b1, f, CrcOf(IMG_ADDR, h.fwSize));
      if reply.ret < 0 then CrcRecorded(b2, 0, false)
      else CrcRecorded(b2, U32(reply.crc), U32(reply.crc) == h.check)
  }

  function ModeSet(b: Boot, mode: nat): Boot {
    Saved(b.(info := b.info.(mode := mode)))
  }

  function ExitWork(s: Session, f: Faults): Session
    requires s.boot.entered == None && !s.boot.overrun
  {
    var b := ReadAndValidate(s.boot, f);
    s.(boot := if b.entered.Some? || b.overrun then b else ModeSet(b, MODE_STAY), exitPending := false)
  }

  // 0xBB: what the dispatcher does, and whether it returns or restarts the EC.
  datatype SpiOutcome = Returns(ret: int) | Restarts

  function ReasonSet(b: Boot, reason: nat): Boot {
    Saved(b.(info := b.info.(resetReason := reason)))
  }

  function Spi(s: Session, f: Faults, cmd: seq<byte>): (Session, SpiOutcome) {
    if |cmd| < 3 then (s, Returns(EINVAL))
    else
      var sub := At(cmd, 2);
      if sub == SUB_ENTER then (s.(boot := ModeSet(s.boot, MODE_STAY)), Returns(0))
      else if sub == SUB_EXIT then (s.(boot := ModeSet(s.boot, MODE_NORMAL), exitPending := true), Returns(0))
      else if sub == SUB_RUN_CRC then (s.(boot := RunCrc(s.boot, f)), Returns(0))
      else if sub == SUB_RESET then (s.(boot := ReasonSet(s.boot, REASON_HOST_REQ)), Restarts)
      else if sub == 0xC0 || sub == 0xC1 then (s.(boot := ReasonSet(s.boot, REASON_PANIC)), Restarts)
      else if sub == 0xC2 then (s.(boot := ReasonSet(s.boot, REASON_WDT)), Restarts)
      else if 0x11 <= sub <= 0x13 || 0x15 <= sub <= 0x1C || 0xF1 <= sub <= 0xF9 then (s, Returns(0))
      else (s, Returns(EINVAL))
  }

  // --------------------------------------------------------------- the handlers

  class Updater {
    const drv: Driver
    const ramBuffer: array<byte>
    var dataLen: nat
    var wrAddr: nat
    var exitPending: bool

    ghost predicate Valid()
      reads this
    {
      drv.Valid() && ramBuffer.Length == RAM_BUFFER_SIZE && ramBuffer != drv.crcBuf && dataLen <= RAM_BUFFER_SIZE
    }

    ghost function View(): Session
      reads this, drv, ramBuffer
    {
      Session(drv.View(), ramBuffer[..], dataLen, wrAddr, exitPending)
    }

    constructor (drv: Driver)
      requires drv.Valid()
      ensures Valid() && this.drv == drv && fresh(ramBuffer)
      ensures dataLen == 0 && wrAddr == 0 && !exitPending
    {
      this.drv := drv;
      ramBuffer := new byte[RAM_BUFFER_SIZE](_ => 0);
      dataLen := 0;
      wrAddr := 0;
      exitPending := false;
    }

    method EraseDesignatedRegion(cmd: seq<byte>) returns (ret: int)
      requires Valid()
      modifies this, drv, drv.crcBuf
      ensures Valid() && (View(), ret) == EraseRegion(old(View()), drv.faults, cmd)
    {
      hide Requested;
      if |cmd| < 7 {
        return EINVAL;
      }
      var size := At(cmd, 3) * SECTOR;
      var address := Address(cmd);
      address := address + HOST_OFFSET;
      var reply := drv.FlashRequest(EraseAt(address, size));
      ret := reply.ret;
    }

    method EraseParticularPartition(cmd: seq<byte>) returns (ret: int)
      requires Valid()
      modifies this, drv, drv.crcBuf
      ensures Valid() && (View(), ret) == ErasePartition(old(View()), drv.faults, cmd)
    {
      hide Requested;
      hide ClearBackupIntact;
      if |cmd| < 3 {
        return EINVAL;
      }
      ret := 0;
      if At(cmd, 2) == QUICK_ERASE_MAIN {
        drv.info := drv.info.(corruption := ClearBackupIntact(drv.info.corruption));
        var reply := drv.FlashRequest(EraseAt(HDR_ADDR, MAIN_SIZE));
        ret := reply.ret;
        wrAddr := HDR_ADDR;
      }
      drv.BootInfoSave();
    }

    method WriteRamBuffer(cmd: seq<byte>) returns (ret: int)
      requires Valid()
      modifies this, ramBuffer
      ensures Valid() && (View(), ret) == Stage(old(View()), cmd)
    {
      if |cmd| < RAM_BUFFER_SIZE + 1 {
        return EINVAL;
      }
      var payloadLen := |cmd| - 1;
      if payloadLen > RAM_BUFFER_SIZE {
        return EINVAL;
      }
      forall i | 0 <= i < payloadLen {
        ramBuffer[i] := cmd[1 + i];
      }
      dataLen := payloadLen;
      assert ramBuffer[..] == cmd[1..];
      ret := 0;
    }

    method WriteDesignatedRegion(cmd: seq<byte>) returns (ret: int)
      requires Valid()
      modifies this, drv, drv.crcBuf
      ensures Valid() && (View(), ret) == Commit(old(View()), drv.faults, cmd)
    {
      hide Requested;
      if |cmd| < 7 {
        return EINVAL;
      }
      var path := At(cmd, 2);
      var address := Address(cmd);
      var bytes := At(cmd, 3) * 32;
      if bytes > dataLen {
        bytes := dataLen;
      }
      if path == PATH_INT {
        address := address + HOST_OFFSET;
      } else if path == PATH_AUTO {
        address := wrAddr;
      } else {
        return EINVAL;
      }
      assert ramBuffer[..][..bytes] == ramBuffer[..bytes];
      var reply := drv.FlashRequest(Write(address, ramBuffer[..bytes]));
      if reply.ret < 0 {
        return reply.ret;
      }
      wrAddr := (wrAddr + bytes) % U32_LIMIT;
      ret := reply.ret;
    }

    method RunCrcIntActMain()
      requires Valid()
      modifies drv, drv.crcBuf
      ensures Valid() && drv.View() == RunCrc(old(drv.View()), drv.faults)
    {
      hide Serve;
      hide Decode;
      hide Slice;
      hide U32;
      hide ClearMainIntact;
      hide SetMainIntact;
      var value, passed := 0, false;
      var hdr := new byte[HEADER_SIZE](_ => 0);
      var ret := drv.GetImageHeader(hdr);
      var h := ZERO_HEADER;
      if ret == 0 {
        h := Decode(hdr[..]);
      }
      if h.fwSize > 0 && h.fwSize <= IMAGE_SIZE_LIMIT {
        var reply := drv.FlashRequest(CrcOf(IMG_ADDR, h.fwSize));
        if reply.ret >= 0 {
          value := U32(reply.crc);
          passed := value == h.check;
        }
      }
      drv.info := drv.info.(lastCrcValue := value, lastCrcStatus := if passed then CRC_PASSED else CRC_FAILED);
      if passed {
        drv.info := drv.info.(corruption := SetMainIntact(drv.info.corruption));
      } else {
        drv.info := drv.info.(corruption := ClearMainIntact(drv.info.corruption));
      }
      drv.BootInfoSave();
    }

    method SpiServices(cmd: seq<byte>) returns (outcome: SpiOutcome)
      requires Valid()
      modifies this, drv, drv.crcBuf
      ensures Valid() && (View(), outcome) == Spi(old(View()), drv.faults, cmd)
    {
      hide RunCrc;
      if |cmd| < 3 {
        return Returns(EINVAL);
      }
      var sub := At(cmd, 2);
      if sub == SUB_ENTER {
        drv.info := drv.info.(mode := MODE_STAY);
        drv.BootInfoSave();
      } else if sub == SUB_EXIT {
        drv.info := drv.info.(mode := MODE_NORMAL);
        drv.BootInfoSave();
        exitPending := true;
      } else if sub == SUB_RUN_CRC {
        RunCrcIntActMain();
      } else if sub == SUB_RESET || 0xC0 <= sub <= 0xC2 {
        var reason := if sub == SUB_RESET then REASON_HOST_REQ else if sub == 0xC2 then REASON_WDT else REASON_PANIC;
        drv.info := drv.info.(resetReason := reason);
        drv.BootInfoSave();
        return Restarts;
      } else if !(0x11 <= sub <= 0x13 || 0x15 <= sub <= 0x1C || 0xF1 <= sub <= 0xF9) {
        return Returns(EINVAL);
      }
      outcome := Returns(0);
    }

    method ExitBootloaderWork()
      requires Valid() && drv.entered == None && !drv.overrun
      modifies this, drv, drv.crcBuf
      ensures Valid() && View() == ExitWork(old(View()), drv.faults)
    {
      hide ReadAndValidate;
      exitPending := false;
      drv.ReadHeaderAndValidate();
      if drv.entered == None && !drv.overrun {
        drv.info := drv.info.(mode := MODE_STAY);
        drv.BootInfoSave();
      }
    }
  }
}

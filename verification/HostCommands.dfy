/**
 The update commands as the host sees them on the bus: for every byte string,
 what it is answered and what it changes, in the numbers of the wire format
 (`service/acpi/ec_fw_update_bootloader.c`).
 */
module HostCommands {
  import opened BootSafety
  import opened Crc32
  import opened Device
  import opened FlashOps
  import opened FwUpdate
  import opened Image
  import opened Storage
  import opened UpdateStream
  import opened Wrappers
  import H = BootHistory
  import R = EnterRace

  // 0xA0 takes exactly 512 bytes, which become the staged ones; any other
  // length changes nothing.
  lemma StageCommand(s: Session, f: Faults, cmd: seq<byte>)
    requires BufferFits(s) && cmd != [] && At(cmd, 0) == 0xA0
    ensures var (e, ret) := Dispatch(s, f, cmd);
      && (ret == 0 || ret == -22) && (ret == 0 <==> |cmd| == 513)
      && (ret == 0 ==> |e.buffer| == e.len == 512 && forall i :: 0 <= i < 512 ==> e.buffer[i] == cmd[1 + i])
      && e == (if ret == 0 then s.(buffer := e.buffer, len := e.len) else s)
  {
    hide Val;
  }

  function AddressIn(cmd: seq<byte>): nat
    requires |cmd| >= 7
  {
    At(cmd, 4) + 0x100 * At(cmd, 5) + 0x1_0000 * At(cmd, 6)
  }

  // Where a commit goes and how much: at most as many 32-byte units as it names
  // and at most what is staged.
  predicate CommitGoes(s: Session, cmd: seq<byte>, at: nat, n: nat)
    requires |cmd| >= 7
  {
    && (At(cmd, 2) == 0x4F ==> at == AddressIn(cmd) + 0x9000)
    && (At(cmd, 2) == 0xEA ==> at == s.cursor)
    && n <= 32 * At(cmd, 3) && n <= s.len && (n == 32 * At(cmd, 3) || n == s.len)
  }

  // 0xAA on either path: the staged bytes clear bits at the place named, and
  // the cursor moves past them, exactly when there are some, they lie in the
  // flash and the device takes them; otherwise neither changes.
  lemma CommitCommand(s: Session, f: Faults, cmd: seq<byte>, at: nat, n: nat)
    requires BufferFits(s) && |cmd| >= 7 && At(cmd, 0) == 0xAA && (At(cmd, 2) == 0x4F || At(cmd, 2) == 0xEA)
    requires CommitGoes(s, cmd, at, n)
    ensures var (e, ret) := Dispatch(s, f, cmd); var (old', new') := (s.boot.dev.flash, e.boot.dev.flash);
      && ret <= 0 && (ret == 0 <==> n > 0 && f(s.boot.dev.tick) >= 0 && at + n <= |old'|)
      && e.buffer == s.buffer && e.len == s.len && e.exitPending == s.exitPending
      && e.boot.dev.ram == s.boot.dev.ram && e.boot.retained == s.boot.retained
      && e.boot.info == s.boot.info.(status := if n > 0 then 0x0B else s.boot.info.status)
      && (ret == 0 ==>
            && e.cursor == (s.cursor + n) % 0x1_0000_0000 && |new'| == |old'|
            && forall i :: 0 <= i < |old'| ==>
                 new'[i] == if at <= i < at + n then old'[i] & s.buffer[i - at] else old'[i])
      && (ret < 0 ==> e.cursor == s.cursor && new' == old')
  {
    hide Val;
    hide Le;
    hide Spi;
    AddressBytes(cmd);
    hide AddressIn;
    assert n == CommitSize(s, cmd) && CommitTarget(s, cmd) == Some(at);
    assert Dispatch(s, f, cmd) == Commit(s, f, cmd);
    hide CommitSize;
    hide CommitTarget;
    hide Dispatch;
    WriteAnswered(s.boot, f, at, s.buffer[..n]);
    hide Requested;
  }

  lemma WriteAnswered(b: Boot, f: Faults, at: nat, data: seq<byte>)
    ensures var (e, reply) := Requested(b, f, Write(at, data)); var (old', new') := (b.dev.flash, e.dev.flash);
      && reply.ret <= 0 && (reply.ret == 0 <==> |data| > 0 && f(b.dev.tick) >= 0 && at + |data| <= |old'|)
      && e.dev.ram == b.dev.ram && e.retained == b.retained && |new'| == |old'|
      && e.info == b.info.(status := if |data| > 0 then 0x0B else b.info.status)
      && (reply.ret == 0 ==> forall i :: 0 <= i < |old'| ==>
            new'[i] == if at <= i < at + |data| then old'[i] & data[i - at] else old'[i])
      && (reply.ret < 0 ==> new' == old')
  {
    hide Crc;
    hide StoreRam;
    hide ScanOf;
  }

  // Any other path byte, and a command cut short, is refused.
  lemma CommitRefused(s: Session, f: Faults, cmd: seq<byte>)
    requires BufferFits(s) && cmd != [] && At(cmd, 0) == 0xAA
    requires |cmd| >= 7 ==> At(cmd, 2) != 0x4F && At(cmd, 2) != 0xEA
    ensures Dispatch(s, f, cmd) == (s, -22)
  {
    hide Val;
  }

  // 0xAE erases the named number of 4096-byte sectors, or changes nothing.
  lemma EraseCommand(s: Session, f: Faults, cmd: seq<byte>)
    requires BufferFits(s) && cmd != [] && At(cmd, 0) == 0xAE
    ensures var (e, ret) := Dispatch(s, f, cmd); var (old', new') := (s.boot.dev.flash, e.boot.dev.flash);
      if |cmd| < 7 then e == s && ret == -22
      else
        var lo := AddressIn(cmd) + 0x9000; var hi := lo + 4096 * At(cmd, 3);
        && ret <= 0 && (ret == 0 <==> lo < hi <= |old'| && f(s.boot.dev.tick) >= 0)
        && |new'| == |old'|
        && (ret == 0 ==> forall i :: 0 <= i < |old'| ==> new'[i] == if lo <= i < hi then 0xFF else old'[i])
        && (ret < 0 ==> new' == old')
        && e.cursor == s.cursor && e.buffer == s.buffer && e.len == s.len
        && e.boot.info == s.boot.info.(status := if lo < hi then 0x0B else s.boot.info.status)
  {
    hide Val;
    hide Le;
    if |cmd| >= 7 {
      AddressBytes(cmd);
      RegionEraseStep(s, f, cmd);
      hide AddressIn;
      RegionRet(s, f, cmd);
      hide Dispatch;
      hide ErasedIn;
      var (e, ret) := Dispatch(s, f, cmd);
      if ret == 0 {
        EraseSpread(s.boot.dev.flash, e.boot.dev.flash, Address(cmd) + HOST_OFFSET,
                    Address(cmd) + HOST_OFFSET + SECTOR * At(cmd, 3));
      }
    }
  }

  lemma RegionRet(s: Session, f: Faults, cmd: seq<byte>)
    requires BufferFits(s) && |cmd| >= 7 && At(cmd, 0) == OP_ERASE_REGION
    ensures Dispatch(s, f, cmd).1 <= 0
    ensures Dispatch(s, f, cmd).0.boot.info
         == s.boot.info.(status := if At(cmd, 3) > 0 then 0x0B else s.boot.info.status)
  {
    hide Val;
    hide Le;
    hide Crc;
    hide StoreRam;
    hide ScanOf;
    hide Spi;
    hide Erase;
  }

  lemma EraseSpread(before: seq<byte>, after: seq<byte>, lo: nat, hi: nat)
    requires lo <= hi <= |before| == |after| && ErasedIn(after, lo, hi)
    requires after[..lo] == before[..lo] && after[hi..] == before[hi..]
    ensures forall i :: 0 <= i < |before| ==> after[i] == if lo <= i < hi then 0xFF else before[i]
  {
    forall i | 0 <= i < |before| ensures after[i] == if lo <= i < hi then 0xFF else before[i] {
      if i < lo {
        assert after[i] == after[..lo][i];
      } else if i >= hi {
        assert after[i] == after[hi..][i - hi];
      }
    }
  }

  // 0xAF 0x21 erases header and image, 0x11000 to 0x43000, puts the cursor at
  // their start and clears the backup bit, all but the erasure whatever the
  // device says; every other sub-command saves the record and no more.
  lemma QuickEraseCommand(s: Session, f: Faults, cmd: seq<byte>)
    requires BufferFits(s) && |cmd| >= 3 && At(cmd, 0) == 0xAF && 0x4_3000 <= |s.boot.dev.flash|
    ensures var (e, ret) := Dispatch(s, f, cmd); var (old', new') := (s.boot.dev.flash, e.boot.dev.flash);
      && e.boot.retained == Some(e.boot.info) && e.buffer == s.buffer && e.len == s.len
      && e.exitPending == s.exitPending && SameRest(s.boot.info, e.boot.info)
      && e.boot.info.mode == s.boot.info.mode && e.boot.info.failCount == s.boot.info.failCount
      && if At(cmd, 2) == 0x21 then
           && ret <= 0 && (ret == 0 <==> f(s.boot.dev.tick) >= 0) && e.cursor == 0x1_1000
           && e.boot.info.corruption == s.boot.info.corruption & 0xF7 && e.boot.info.status == 0x0B
           && |new'| == |old'|
           && forall i :: 0 <= i < |old'| ==>
                new'[i] == if ret == 0 && 0x1_1000 <= i < 0x4_3000 then 0xFF else old'[i]
         else ret == 0 && e.cursor == s.cursor && e.boot.info == s.boot.info && e.boot.dev == s.boot.dev
  {
    hide Val;
    hide Le;
    hide Crc;
    hide StoreRam;
    hide ScanOf;
    hide Spi;
    BackupMask(s.boot.info.corruption);
    hide ClearBackupIntact;
  }

  lemma BackupMask(c: bv8)
    ensures ClearBackupIntact(c) == c & 0xF7
  {
  }

  // ---------------------------------------------------------- 0xBB services

  // Sub-commands that are accepted and do nothing.
  predicate Accepted(sub: nat) {
    sub in {0x11, 0x12, 0x13, 0x15, 0x16, 0x17, 0x18, 0x19, 0x1A, 0x1B, 0x1C,
            0xF1, 0xF2, 0xF3, 0xF4, 0xF5, 0xF6, 0xF7, 0xF8, 0xF9}
  }

  // The reset reason a sub-command restarts the EC with.
  function Reason(sub: nat): Option<nat> {
    if sub == 0xCC then Some(2)
    else if sub == 0xC2 then Some(3)
    else if sub == 0xC0 || sub == 0xC1 then Some(4)
    else None
  }

  // Every 0xBB command: which it enters and leaves the bootloader with, which
  // restart it, which measure, and that none other changes anything.
  lemma ServiceCommand(s: Session, f: Faults, cmd: seq<byte>)
    requires BufferFits(s) && |cmd| >= 3 && At(cmd, 0) == 0xBB
    ensures var (e, ret) := Dispatch(s, f, cmd); var sub := At(cmd, 2);
      && (ret == RESTARTED <==> Reason(sub).Some?)
      && (ret != RESTARTED ==>
            ret == if sub == 0xDC || sub == 0x33 || sub == 0xF0 || Accepted(sub) then 0 else -22)
      && (sub == 0xDC ==> e == s.(boot := s.boot.(info := e.boot.info, retained := Some(e.boot.info)))
                          && e.boot.info == s.boot.info.(mode := 0xDC))
      && (sub == 0x33 ==> e == s.(boot := s.boot.(info := e.boot.info, retained := Some(e.boot.info)),
                                  exitPending := true)
                          && e.boot.info == s.boot.info.(mode := 0))
      && (Reason(sub).Some? ==> e == s.(boot := s.boot.(info := e.boot.info, retained := Some(e.boot.info)))
                                && e.boot.info == s.boot.info.(resetReason := Reason(sub).value))
      && (sub == 0xF0 ==> e == s.(boot := RunCrc(s.boot, f)))
      && (sub != 0xDC && sub != 0x33 && sub != 0xF0 && Reason(sub) == None ==> e == s)
  {
    hide Val;
    hide RunCrc;
  }

  lemma ServiceRefused(s: Session, f: Faults, cmd: seq<byte>)
    requires BufferFits(s) && cmd != [] && |cmd| < 3 && At(cmd, 0) >= 0xA0
    ensures Dispatch(s, f, cmd) == (s, -22)
  {
    hide Val;
  }

  // An opcode that is none of these does nothing here.
  lemma OtherOpcode(s: Session, f: Faults, cmd: seq<byte>)
    requires BufferFits(s)
    requires cmd != [] ==> At(cmd, 0) !in {0xA0, 0xAA, 0xAE, 0xAF, 0xBB}
    ensures Dispatch(s, f, cmd) == (s, -22)
  {
    hide Val;
  }

  // What the host restarted the EC for is what the next start reports as the
  // last reset, once: the start after that reports none recorded.  Mode, count
  // and flags come through both.
  lemma ReasonHandedOver(s: Session, f: Faults, cmd: seq<byte>)
    requires BufferFits(s) && |cmd| >= 3 && At(cmd, 0) == 0xBB && Reason(At(cmd, 2)).Some?
    requires s.boot.info.version == 1
    ensures var a := AfterInit(Dispatch(s, f, cmd).0.boot); var b := AfterInit(a);
      && a.info.lastResetReason == Reason(At(cmd, 2)).value && b.info.lastResetReason == 0
      && a.info.mode == b.info.mode == s.boot.info.mode
      && a.info.failCount == b.info.failCount == s.boot.info.failCount
      && a.info.corruption == b.info.corruption == s.boot.info.corruption
  {
    hide Dispatch;
    ServiceCommand(s, f, cmd);
    RecordAtStart(Dispatch(s, f, cmd).0.boot);
    RecordAtStart(AfterInit(Dispatch(s, f, cmd).0.boot));
    hide InfoAtBoot;
  }

  // ------------------------------------------------------------- 0xBB 0xF0

  lemma CrcAnswered(b: Boot, f: Faults, size: nat)
    requires size > 0
    ensures var (e, reply) := Requested(b, f, CrcOf(IMG_ADDR, size));
      && reply.ret <= 0 && e == b.(dev := b.dev.(tick := e.dev.tick), info := b.info.(status := e.info.status))
      && (reply.ret == 0 <==> IMG_ADDR + size <= |b.dev.flash| && NoneRefused(f, b.dev.tick, Chunks(size)))
      && (reply.ret == 0 ==> reply.crc == Crc(b.dev.flash[IMG_ADDR..IMG_ADDR + size]))
  {
    hide Crc;
    hide StoreRam;
    hide Program;
    hide Erase;
    ScanSucceeds(b.dev, f, IMG_ADDR, size);
    if IMG_ADDR + size <= |b.dev.flash| {
      ScanUnrefused(b.dev, f, IMG_ADDR, size);
    }
    hide ScanOf;
    hide NoneRefused;
  }

  // The header can be read and gives a size that is allowed, and the image can
  // be read too.
  ghost predicate CrcReads(b: Boot, f: Faults, h: Header)
    requires h.fwSize >= 0
  {
    && f(b.dev.tick) >= 0 && 0 < h.fwSize <= 464 * 1024 && 0x1_1020 + h.fwSize <= |b.dev.flash|
    && NoneRefused(f, b.dev.tick + 1, Chunks(h.fwSize))
  }

  // And the header's check value is the image's CRC.
  ghost predicate CrcPasses(b: Boot, f: Faults, h: Header)
    requires h.fwSize >= 0
  {
    CrcReads(b, f, h) && U32(Crc(b.dev.flash[0x1_1020..0x1_1020 + h.fwSize])) == h.check
  }

  // It records a verdict on a state that is as before but for the device calls
  // made and the service's status.
  lemma RunCrcRecords(b: Boot, f: Faults) returns (c: Boot, value: nat)
    requires |b.dev.flash| >= 0x1_1020
    ensures var h := Decode(b.dev.flash[0x1_1000..0x1_1020]); var passes := CrcPasses(b, f, h);
      && RunCrc(b, f) == CrcRecorded(c, value, passes)
      && value == if CrcReads(b, f, h) then U32(Crc(b.dev.flash[0x1_1020..0x1_1020 + h.fwSize])) else 0
    ensures c == b.(dev := b.dev.(tick := c.dev.tick), info := b.info.(status := c.info.status))
  {
    hide Crc;
    hide U32;
    hide Decode;
    hide NoneRefused;
    hide Requested;
    hide CrcRecorded;
    var h := Decode(b.dev.flash[0x1_1000..0x1_1020]);
    c, value := AfterHeaderRead(b), 0;
    if f(b.dev.tick) >= 0 {
      assert HeaderSeen(b.dev, f) == h;
      if 0 < h.fwSize <= IMAGE_SIZE_LIMIT {
        CrcAnswered(c, f, h.fwSize);
        var reply;
        c, reply := Requested(c, f, CrcOf(IMG_ADDR, h.fwSize)).0, Requested(c, f, CrcOf(IMG_ADDR, h.fwSize)).1;
        value := if reply.ret < 0 then 0 else U32(reply.crc);
      }
    } else {
      assert HeaderSeen(b.dev, f) == ZERO_HEADER;
    }
  }

  // Run-CRC records 0xAC and sets the intact bit exactly when it passes, else
  // 0xFA, and clears it; the header's magic and control byte play no part.
  lemma RunCrcExactly(b: Boot, f: Faults)
    requires |b.dev.flash| >= 0x1_1020
    ensures var e := RunCrc(b, f); var h := Decode(b.dev.flash[0x1_1000..0x1_1020]);
      && e.info.lastCrcStatus == (if CrcPasses(b, f, h) then 0xAC else 0xFA)
      && e.info.corruption
         == (if CrcPasses(b, f, h) then b.info.corruption | 0x04 else b.info.corruption & 0xFB)
      && e.info.lastCrcValue
         == (if CrcReads(b, f, h) then U32(Crc(b.dev.flash[0x1_1020..0x1_1020 + h.fwSize])) else 0)
      && e.retained == Some(e.info) && e.dev.flash == b.dev.flash && e.dev.ram == b.dev.ram
      && SameRest(b.info, e.info) && e.info.mode == b.info.mode && e.info.failCount == b.info.failCount
  {
    hide RunCrc;
    hide Decode;
    hide U32;
    hide Crc;
    hide NoneRefused;
    ClearIsMask(b.info.corruption);
    hide ClearMainIntact;
    hide SetMainIntact;
    var _, _ := RunCrcRecords(b, f);
  }

  // ------------------------------------------------ commands and their events

  // The host's requests in a history are these commands.
  lemma EventsAreCommands(w: H.World, f: Faults, cmd: seq<byte>)
    requires H.Sound(w) && w.phase == H.InBootloader && BufferFits(w.s) && |cmd| >= 3 && At(cmd, 0) == 0xBB
    ensures At(cmd, 2) == 0xDC ==> H.Next(w, H.HostEnter, f).s == Dispatch(w.s, f, cmd).0
    ensures At(cmd, 2) == 0x33 ==> H.Next(w, H.HostExit, f).s == Dispatch(w.s, f, cmd).0
    ensures At(cmd, 2) == 0xF0 ==> H.Next(w, H.HostRunCrc, f).s == Dispatch(w.s, f, cmd).0
  {
    hide Val;
    hide RunCrc;
  }

  // The two accesses of a request that arrives during a validation, made without
  // a break, are the command that enters the bootloader.
  lemma EnterIsCommand(r: R.State, s: Session, f: Faults, h: Header, cmd: seq<byte>)
    requires R.Alive(r) && r.host == R.Waiting && s.boot == r.b && BufferFits(s)
    requires |cmd| >= 3 && At(cmd, 0) == 0xBB && At(cmd, 2) == 0xDC
    ensures R.Next(R.Next(r, f, h, R.HostStores), f, h, R.HostSaves).b == Dispatch(s, f, cmd).0.boot
  {
    hide Val;
    hide RunCrc;
  }
}

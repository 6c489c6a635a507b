/**
 From the packer to the running app: a packaged image, streamed in 400 blocks
 of 512 bytes over either flash path, is what the bootloader accepts, copies
 to program RAM and enters.
 */
module EndToEnd {
  import opened BootSafety
  import opened Crc32
  import opened Device
  import opened FwUpdate
  import opened Image
  import opened Storage
  import opened UpdateStream
  import opened Wrappers

  const BLOCKS: nat := 400
  const HOST_HDR: nat := 0x8000

  // ---------------------------------------------------------------- the host

  function Block(image: seq<byte>, i: nat): (r: seq<byte>)
    requires |image| == TARGET_IMAGE_SIZE && i < BLOCKS
    ensures |r| == CHUNK
  {
    image[CHUNK * i..CHUNK * (i + 1)]
  }

  function StageCmd(image: seq<byte>, i: nat): (r: seq<byte>)
    requires |image| == TARGET_IMAGE_SIZE && i < BLOCKS
    ensures |r| == CHUNK + 1
  {
    [Chr(OP_STAGE)] + Block(image, i)
  }

  // Sixteen 32-byte units at the block's host address; on the AUTO path the
  // bootloader ignores the address.
  function CommitCmd(i: nat, auto: bool): (r: seq<byte>)
    requires i < BLOCKS
    ensures |r| == 7
  {
    [Chr(OP_COMMIT), Chr(5), Chr(if auto then PATH_AUTO else PATH_INT), Chr(16)] + PutLe(HOST_HDR + CHUNK * i, 3)
  }

  function Stream(image: seq<byte>, auto: seq<bool>, i: nat): seq<seq<byte>>
    requires |image| == TARGET_IMAGE_SIZE && |auto| == BLOCKS && i <= BLOCKS
    decreases BLOCKS - i
  {
    if i == BLOCKS then []
    else [StageCmd(image, i), CommitCmd(i, auto[i])] + Stream(image, auto, i + 1)
  }

  // The host saw every command return zero.
  predicate AllAccepted(s: Session, f: Faults, cmds: seq<seq<byte>>)
    requires BufferFits(s)
    decreases |cmds|
  {
    if cmds == [] then true
    else
      DispatchFits(s, f, cmds[0]);
      Dispatch(s, f, cmds[0]).1 == 0 && AllAccepted(Dispatch(s, f, cmds[0]).0, f, cmds[1..])
  }

  // ------------------------------------------------------------- one block

  lemma StageDone(s: Session, f: Faults, image: seq<byte>, i: nat)
    requires BufferFits(s) && |image| == TARGET_IMAGE_SIZE && i < BLOCKS
    ensures Dispatch(s, f, StageCmd(image, i)) == (s.(buffer := Block(image, i), len := RAM_BUFFER_SIZE), 0)
  {
    hide Val;
    hide Chr;
    hide Commit;
    hide ErasePartition;
    hide EraseRegion;
    hide Spi;
    ValChr(OP_STAGE);
    assert StageCmd(image, i)[1..] == Block(image, i);
  }

  lemma CommitFields(i: nat, auto: bool)
    requires i < BLOCKS
    ensures var c := CommitCmd(i, auto);
      && At(c, 0) == OP_COMMIT && At(c, 2) == (if auto then PATH_AUTO else PATH_INT) && At(c, 3) == 16
      && Address(c) == HOST_HDR + CHUNK * i
  {
    hide Val;
    hide Chr;
    hide PutLe;
    hide Le;
    ValChr(OP_COMMIT);
    ValChr(if auto then PATH_AUTO else PATH_INT);
    ValChr(16);
    Radixes();
    LeOfPutLe(HOST_HDR + CHUNK * i, 3);
    assert CommitCmd(i, auto)[4..7] == PutLe(HOST_HDR + CHUNK * i, 3);
  }

  // The session after blocks 0..i: the partition holds that much of the image
  // and is otherwise erased.
  ghost predicate Streamed(s: Session, image: seq<byte>, i: nat) {
    && BufferFits(s) && |image| == TARGET_IMAGE_SIZE && i <= BLOCKS
    && |s.boot.dev.flash| == FLASH_SIZE
    && s.cursor == HDR_ADDR + CHUNK * i
    && s.boot.dev.flash[HDR_ADDR..HDR_ADDR + CHUNK * i] == image[..CHUNK * i]
    && ErasedIn(s.boot.dev.flash, HDR_ADDR + CHUNK * i, HDR_ADDR + MAIN_SIZE)
  }

  predicate SameBoot(a: Boot, b: Boot) {
    a.info.mode == b.info.mode && a.entered == b.entered && a.overrun == b.overrun
  }

  lemma CommitDone(s: Session, f: Faults, i: nat, auto: bool)
    requires BufferFits(s) && s.len == RAM_BUFFER_SIZE && i < BLOCKS && Dispatch(s, f, CommitCmd(i, auto)).1 == 0
    requires |s.boot.dev.flash| == FLASH_SIZE && s.cursor == HDR_ADDR + CHUNK * i
    ensures var e := Dispatch(s, f, CommitCmd(i, auto)).0;
      && BufferFits(e) && e.cursor == s.cursor + CHUNK && SameBoot(e.boot, s.boot)
      && e.boot.dev.tick == s.boot.dev.tick + 1
      && e.boot.dev.flash == Program(s.boot.dev.flash, s.cursor, s.buffer)
  {
    hide Val;
    hide Chr;
    hide Le;
    hide Crc;
    hide Program;
    hide StoreRam;
    hide ScanOf;
    hide CommitCmd;
    hide Spi;
    CommitFields(i, auto);
    assert s.buffer[..RAM_BUFFER_SIZE] == s.buffer;
  }

  // A commit is accepted exactly when the device does not refuse its one call.
  lemma CommitAccepted(s: Session, f: Faults, i: nat, auto: bool)
    requires BufferFits(s) && s.len == RAM_BUFFER_SIZE && i < BLOCKS
    requires |s.boot.dev.flash| == FLASH_SIZE && s.cursor == HDR_ADDR + CHUNK * i
    ensures Dispatch(s, f, CommitCmd(i, auto)).1 == 0 <==> f(s.boot.dev.tick) >= 0
    ensures Dispatch(s, f, CommitCmd(i, auto)).1 <= 0
  {
    hide Val;
    hide Chr;
    hide Le;
    hide Crc;
    hide Program;
    hide StoreRam;
    hide ScanOf;
    hide CommitCmd;
    hide Spi;
    CommitFields(i, auto);
  }

  lemma BlockDone(s: Session, f: Faults, image: seq<byte>, i: nat, auto: bool)
    requires Streamed(s, image, i) && i < BLOCKS
    ensures BufferFits(Dispatch(s, f, StageCmd(image, i)).0) && Dispatch(s, f, StageCmd(image, i)).1 == 0
    ensures var (e, ret) := Dispatch(Dispatch(s, f, StageCmd(image, i)).0, f, CommitCmd(i, auto));
      && (ret == 0 <==> f(s.boot.dev.tick) >= 0)
      && (ret == 0 ==> Streamed(e, image, i + 1) && SameBoot(e.boot, s.boot)
                       && e.boot.dev.tick == s.boot.dev.tick + 1)
  {
    hide Dispatch;
    hide Program;
    StageDone(s, f, image, i);
    var s1 := Dispatch(s, f, StageCmd(image, i)).0;
    CommitAccepted(s1, f, i, auto);
    if Dispatch(s1, f, CommitCmd(i, auto)).1 == 0 {
      CommitDone(s1, f, i, auto);
      ProgramFrame(s.boot.dev.flash, s.cursor, Block(image, i), HDR_ADDR + MAIN_SIZE);
      var g := Dispatch(s1, f, CommitCmd(i, auto)).0.boot.dev.flash;
      assert g[HDR_ADDR..s.cursor] == g[..s.cursor][HDR_ADDR..] == image[..CHUNK * i];
      assert g[HDR_ADDR..s.cursor + CHUNK] == g[HDR_ADDR..s.cursor] + g[s.cursor..s.cursor + CHUNK];
      assert image[..CHUNK * (i + 1)] == image[..CHUNK * i] + Block(image, i);
    }
  }

  lemma PlayOne(s: Session, f: Faults, a: seq<byte>, rest: seq<seq<byte>>)
    requires BufferFits(s)
    ensures BufferFits(Dispatch(s, f, a).0)
    ensures AllAccepted(s, f, [a] + rest) <==>
              Dispatch(s, f, a).1 == 0 && AllAccepted(Dispatch(s, f, a).0, f, rest)
    ensures AllAccepted(s, f, [a] + rest) ==>
              Play(s, f, [a] + rest) == Play(Dispatch(s, f, a).0, f, rest)
  {
    hide Dispatch;
    DispatchFits(s, f, a);
    assert ([a] + rest)[1..] == rest;
  }

  lemma {:induction false} BlocksDone(
    s: Session, f: Faults, image: seq<byte>, auto: seq<bool>, i: nat, rest: seq<seq<byte>>)
    returns (e: Session)
    requires Streamed(s, image, i) && |auto| == BLOCKS && AllAccepted(s, f, Stream(image, auto, i) + rest)
    ensures Streamed(e, image, BLOCKS) && SameBoot(e.boot, s.boot)
    ensures e.boot.dev.tick == s.boot.dev.tick + (BLOCKS - i)
    ensures AllAccepted(e, f, rest) && Play(s, f, Stream(image, auto, i) + rest) == Play(e, f, rest)
    decreases BLOCKS - i
  {
    hide Dispatch;
    hide StageCmd;
    hide CommitCmd;
    hide AllAccepted;
    hide Play;
    assert BufferFits(s) && |image| == TARGET_IMAGE_SIZE && i <= BLOCKS;
    hide Streamed;
    if i < BLOCKS {
      var a, b, more := StageCmd(image, i), CommitCmd(i, auto[i]), Stream(image, auto, i + 1) + rest;
      assert Stream(image, auto, i) + rest == [a] + ([b] + more);
      PlayOne(s, f, a, [b] + more);
      PlayOne(Dispatch(s, f, a).0, f, b, more);
      BlockDone(s, f, image, i, auto[i]);
      e := BlocksDone(Dispatch(Dispatch(s, f, a).0, f, b).0, f, image, auto, i + 1, rest);
    } else {
      assert Stream(image, auto, i) + rest == rest;
      e := s;
    }
  }

  // Erase, then every block in order, each over either path: if the host saw
  // every command return zero, whatever the device did to make it so, the
  // partition holds exactly the image.
  lemma ImageStreamed(s: Session, f: Faults, erase: seq<byte>, image: seq<byte>, auto: seq<bool>, rest: seq<seq<byte>>)
    returns (e: Session)
    requires BufferFits(s) && |s.boot.dev.flash| == FLASH_SIZE
    requires QuickErase(erase) && |image| == TARGET_IMAGE_SIZE && |auto| == BLOCKS
    requires AllAccepted(s, f, [erase] + (Stream(image, auto, 0) + rest))
    ensures BufferFits(e) && |e.boot.dev.flash| == FLASH_SIZE
    ensures e.boot.dev.flash[HDR_ADDR..HDR_ADDR + TARGET_IMAGE_SIZE] == image
    ensures SameBoot(e.boot, s.boot) && e.boot.dev.tick == s.boot.dev.tick + 1 + BLOCKS
    ensures AllAccepted(e, f, rest) && Play(s, f, [erase] + (Stream(image, auto, 0) + rest)) == Play(e, f, rest)
  {
    hide Dispatch;
    hide QuickErase;
    hide Stream;
    hide AllAccepted;
    hide Play;
    PlayOne(s, f, erase, Stream(image, auto, 0) + rest);
    QuickEraseStep(s, f, erase);
    e := BlocksDone(Dispatch(s, f, erase).0, f, image, auto, 0, rest);
    assert image[..CHUNK * BLOCKS] == image;
  }

  // Accepted whatever came before.
  ghost predicate AlwaysAccepted(f: Faults, rest: seq<seq<byte>>) {
    forall e: Session :: BufferFits(e) ==> AllAccepted(e, f, rest)
  }

  lemma {:induction false} BlocksAccepted(
    s: Session, f: Faults, image: seq<byte>, auto: seq<bool>, i: nat, rest: seq<seq<byte>>)
    requires Streamed(s, image, i) && |auto| == BLOCKS && AlwaysAccepted(f, rest)
    ensures AllAccepted(s, f, Stream(image, auto, i) + rest) <==> NoneRefused(f, s.boot.dev.tick, BLOCKS - i)
    decreases BLOCKS - i
  {
    hide Dispatch;
    hide StageCmd;
    hide CommitCmd;
    hide AllAccepted;
    hide NoneRefused;
    assert BufferFits(s) && |image| == TARGET_IMAGE_SIZE && i <= BLOCKS;
    hide Streamed;
    if i < BLOCKS {
      var a, b, more := StageCmd(image, i), CommitCmd(i, auto[i]), Stream(image, auto, i + 1) + rest;
      assert Stream(image, auto, i) + rest == [a] + ([b] + more);
      BlockDone(s, f, image, i, auto[i]);
      PlayOne(s, f, a, [b] + more);
      PlayOne(Dispatch(s, f, a).0, f, b, more);
      RefusedFirst(f, s.boot.dev.tick, BLOCKS - i - 1);
      if f(s.boot.dev.tick) >= 0 {
        BlocksAccepted(Dispatch(Dispatch(s, f, a).0, f, b).0, f, image, auto, i + 1, rest);
      }
    } else {
      assert Stream(image, auto, i) + rest == rest;
      NothingRefused(f, s.boot.dev.tick);
    }
  }

  lemma NothingRefused(f: Faults, t: nat)
    ensures NoneRefused(f, t, 0)
  {
  }

  lemma EraseBegins(s: Session, f: Faults, erase: seq<byte>, image: seq<byte>)
    requires BufferFits(s) && |s.boot.dev.flash| == FLASH_SIZE && QuickErase(erase)
    requires |image| == TARGET_IMAGE_SIZE && Dispatch(s, f, erase).1 == 0
    ensures BufferFits(Dispatch(s, f, erase).0) && Streamed(Dispatch(s, f, erase).0, image, 0)
  {
    hide Dispatch;
    hide QuickErase;
    QuickEraseStep(s, f, erase);
    DispatchFits(s, f, erase);
  }

  // The host sees the whole stream accepted exactly when the device refuses
  // none of its calls, one for the erase and one for each block.
  lemma StreamAccepted(s: Session, f: Faults, erase: seq<byte>, image: seq<byte>, auto: seq<bool>, rest: seq<seq<byte>>)
    requires BufferFits(s) && |s.boot.dev.flash| == FLASH_SIZE && AlwaysAccepted(f, rest)
    requires QuickErase(erase) && |image| == TARGET_IMAGE_SIZE && |auto| == BLOCKS
    ensures AllAccepted(s, f, [erase] + (Stream(image, auto, 0) + rest))
            <==> NoneRefused(f, s.boot.dev.tick, 1 + BLOCKS)
  {
    hide Dispatch;
    hide QuickErase;
    hide Stream;
    hide AllAccepted;
    hide NoneRefused;
    hide AlwaysAccepted;
    hide Streamed;
    PlayOne(s, f, erase, Stream(image, auto, 0) + rest);
    QuickEraseStep(s, f, erase);
    RefusedFirst(f, s.boot.dev.tick, BLOCKS);
    if Dispatch(s, f, erase).1 == 0 {
      EraseBegins(s, f, erase, image);
      BlocksAccepted(Dispatch(s, f, erase).0, f, image, auto, 0, rest);
    }
  }

  // ------------------------------------------------------------- and boot it

  lemma PackageIntact(d: Dev, image: seq<byte>, payload: seq<byte>, load: int, ver: Version, low: Version, mode: Mode)
    requires |d.flash| == FLASH_SIZE && IsPackage(image, payload, [], load, ver, low, mode)
    requires d.flash[HDR_ADDR..HDR_ADDR + TARGET_IMAGE_SIZE] == image
    ensures d.flash[HDR_ADDR..HDR_ADDR + HEADER_SIZE] == image[..HEADER_SIZE]
    ensures d.flash[IMG_ADDR..IMG_ADDR + FW_PAYLOAD_SIZE] == Padded(payload)
    ensures ImageIntact(d, Decode(image[..HEADER_SIZE]))
  {
    hide Decode;
    hide Signature;
    hide Digest;
    var whole := d.flash[HDR_ADDR..HDR_ADDR + TARGET_IMAGE_SIZE];
    assert d.flash[HDR_ADDR..HDR_ADDR + HEADER_SIZE] == whole[..HEADER_SIZE];
    assert d.flash[IMG_ADDR..IMG_ADDR + FW_PAYLOAD_SIZE] == whole[HEADER_SIZE..TARGET_IMAGE_SIZE];
    if mode != ModeNone {
      SignatureIsDigest(mode, Padded(payload));
    }
  }

  // The app is running: the padded payload is in RAM from RAM_ADDR on, control
  // is at the load address and the boot record is clean and saved.
  ghost predicate AppRunning(e: Boot, payload: seq<byte>, load: int)
    requires |payload| <= FW_PAYLOAD_SIZE
  {
    && e.entered == Some(load)
    && RamHolds(e.dev.ram, RAM_ADDR, Padded(payload))
    && e.info.mode == MODE_NORMAL && e.info.failCount == 0 && MainIntact(e.info.corruption)
    && e.retained == Some(e.info)
  }

  // The header read, one pass to measure a signed image, one to copy it.
  function BootCalls(mode: Mode): nat {
    1 + Chunks(FW_PAYLOAD_SIZE) * if mode == ModeNone then 1 else 2
  }

  lemma RefusedFirst(f: Faults, t: nat, n: nat)
    ensures NoneRefused(f, t, 1 + n) <==> f(t) >= 0 && NoneRefused(f, t + 1, n)
  {
    if f(t) >= 0 && NoneRefused(f, t + 1, n) {
      forall i | t <= i < t + (1 + n) ensures f(i) >= 0 {
        assert i == t || t + 1 <= i;
      }
    }
  }

  lemma NoHeader(b: Boot, f: Faults)
    requires b.entered == None && !b.overrun && f(b.dev.tick) < 0
    ensures ReadAndValidate(b, f).entered == None && !ReadAndValidate(b, f).overrun
  {
    hide ClearMainIntact;
  }

  // A package in flash, in any signing mode, starts from a mode other than
  // STAY exactly when the device refuses none of the calls that takes.
  lemma PackageBoots(b: Boot, f: Faults, image: seq<byte>,
                     payload: seq<byte>, load: int, ver: Version, low: Version, mode: Mode)
    requires |b.dev.flash| == FLASH_SIZE && IsPackage(image, payload, [], load, ver, low, mode)
    requires b.dev.flash[HDR_ADDR..HDR_ADDR + TARGET_IMAGE_SIZE] == image
    requires b.entered == None && !b.overrun && b.info.mode != MODE_STAY
    ensures AppRunning(ReadAndValidate(b, f), payload, load) <==> NoneRefused(f, b.dev.tick, BootCalls(mode))
    ensures ReadAndValidate(b, f).entered.Some? <==> NoneRefused(f, b.dev.tick, BootCalls(mode))
    ensures !ReadAndValidate(b, f).overrun
  {
    hide Decode;
    hide Validate;
    hide Accepts;
    hide Loads;
    hide AfterDigest;
    hide Signature;
    hide Digest;
    hide StoreRam;
    hide RamHolds;
    hide MainIntact;
    PackageIntact(b.dev, image, payload, load, ver, low, mode);
    RefusedFirst(f, b.dev.tick, BootCalls(mode) - 1);
    hide NoneRefused;
    if f(b.dev.tick) < 0 {
      NoHeader(b, f);
    } else {
      var h, c := Decode(image[..HEADER_SIZE]), AfterHeaderRead(b);
      assert HeaderSeen(b.dev, f) == h;
      IntactIgnoresTick(b.dev, h);
      hide ImageIntact;
      EntersExactly(c, f, h);
      OverrunsExactly(c, f, h);
      if Validate(c, f, h).entered.Some? {
        EntryMeansIntact(c, f, h);
        StoreRamHolds(b.dev.ram, RAM_ADDR, Padded(payload));
      }
    }
  }

  // The first start of a board: nothing usable in retention and a package at
  // 0x11000.  The payload runs from 0xD0000 exactly when the device refuses none
  // of the header read, the passes of 400 chunks to measure and to copy it.
  lemma ColdBoot(b: Boot, f: Faults, image: seq<byte>,
                 payload: seq<byte>, load: int, ver: Version, low: Version, mode: Mode)
    requires |b.dev.flash| == 0x8_0000 && IsPackage(image, payload, [], load, ver, low, mode)
    requires b.dev.flash[0x1_1000..0x4_3000] == image
    requires b.entered == None && !b.overrun && !(b.retained.Some? && b.retained.value.version == 1)
    ensures var e := ReadAndValidate(AfterInit(b), f);
      && (NoneRefused(f, b.dev.tick, if mode == ModeNone then 401 else 801) <==> AppRunning(e, payload, load))
      && (e.entered.Some? <==> AppRunning(e, payload, load))
      && (e.entered.Some? ==>
            && RamHolds(e.dev.ram, 0xD_0000, payload) && e.retained == Some(e.info)
            && e.info.mode == 0 && e.info.failCount == 0 && e.info.corruption == 0x85 && e.info.lastResetReason == 1)
  {
    hide Validate;
    hide HeaderSeen;
    hide IsPackage;
    hide NoneRefused;
    PackageSize(image, payload, load, ver, low, mode);
    var c := AfterInit(b);
    RecordAtStart(b);
    hide InfoAtBoot;
    PackageBoots(c, f, image, payload, load, ver, low, mode);
    var e := ReadAndValidate(c, f);
    if e.entered.Some? {
      EntryMeansIntact(AfterHeaderRead(c), f, HeaderSeen(c.dev, f));
      VerdictRecorded(AfterHeaderRead(c), f, HeaderSeen(c.dev, f));
      PaddedHolds(e.dev.ram, payload);
    }
  }

  lemma PaddedHolds(ram: map<nat, byte>, payload: seq<byte>)
    requires |payload| <= FW_PAYLOAD_SIZE && RamHolds(ram, RAM_ADDR, Padded(payload))
    ensures RamHolds(ram, RAM_ADDR, payload)
  {
  }

  // ---------------------------------------------------- where control lands

  // The jump reads the stack pointer and the entry from these eight bytes.
  ghost predicate JumpReads(e: Boot, vectors: seq<byte>) {
    && e.entered.Some? && e.entered.value >= 0 && |vectors| == 8
    && RamHolds(e.dev.ram, e.entered.value, vectors)
  }

  ghost predicate AlwaysReads(b: Boot, f: Faults, vectors: seq<byte>) {
    forall ram: map<nat, byte> :: JumpReads(ReadAndValidate(WithRam(b, ram), f), vectors)
  }

  // Nothing compares the load address with where the payload was copied: the
  // jump reads its vectors from the package, whatever RAM held before, exactly
  // when they lie in the copied payload, and for RAM_ADDR they are its start.
  lemma VectorsFromPackage(b: Boot, f: Faults, image: seq<byte>,
                           payload: seq<byte>, load: int, ver: Version, low: Version, mode: Mode)
    requires |b.dev.flash| == FLASH_SIZE && IsPackage(image, payload, [], load, ver, low, mode)
    requires b.dev.flash[HDR_ADDR..HDR_ADDR + TARGET_IMAGE_SIZE] == image
    requires b.entered == None && !b.overrun && b.info.mode != MODE_STAY && NoneRefused(f, b.dev.tick, BootCalls(mode))
    ensures (exists v :: AlwaysReads(b, f, v)) <==> RAM_ADDR <= load <= RAM_ADDR + FW_PAYLOAD_SIZE - 8
    ensures load == RAM_ADDR ==> JumpReads(ReadAndValidate(b, f), Padded(payload)[..8])
  {
    hide ReadAndValidate;
    hide IsPackage;
    hide NoneRefused;
    hide MainIntact;
    hide AlwaysReads;
    PackageSize(image, payload, load, ver, low, mode);
    PackageBoots(b, f, image, payload, load, ver, low, mode);
    if RAM_ADDR <= load <= RAM_ADDR + FW_PAYLOAD_SIZE - 8 {
      VectorsInside(b, f, image, payload, load, ver, low, mode);
    }
    if v :| AlwaysReads(b, f, v) {
      AlwaysFromEmpty(b, f, v);
      PackageBoots(WithRam(b, map[]), f, image, payload, load, ver, low, mode);
      assert load in ReadAndValidate(WithRam(b, map[]), f).dev.ram;
      assert load + 7 in ReadAndValidate(WithRam(b, map[]), f).dev.ram;
      CopiedOnly(WithRam(b, map[]), f, image, payload, load, ver, low, mode, load);
      CopiedOnly(WithRam(b, map[]), f, image, payload, load, ver, low, mode, load + 7);
    }
  }

  lemma AlwaysFromEmpty(b: Boot, f: Faults, v: seq<byte>)
    requires AlwaysReads(b, f, v)
    ensures JumpReads(ReadAndValidate(WithRam(b, map[]), f), v)
  {
    hide ReadAndValidate;
  }

  lemma VectorsInside(b: Boot, f: Faults, image: seq<byte>,
                      payload: seq<byte>, load: int, ver: Version, low: Version, mode: Mode)
    requires |b.dev.flash| == FLASH_SIZE && IsPackage(image, payload, [], load, ver, low, mode)
    requires b.dev.flash[HDR_ADDR..HDR_ADDR + TARGET_IMAGE_SIZE] == image
    requires b.entered == None && !b.overrun && b.info.mode != MODE_STAY && NoneRefused(f, b.dev.tick, BootCalls(mode))
    requires RAM_ADDR <= load <= RAM_ADDR + FW_PAYLOAD_SIZE - 8
    ensures AlwaysReads(b, f, Padded(payload)[load - RAM_ADDR..load - RAM_ADDR + 8])
  {
    hide ReadAndValidate;
    hide IsPackage;
    hide NoneRefused;
    hide MainIntact;
    PackageSize(image, payload, load, ver, low, mode);
    var v := Padded(payload)[load - RAM_ADDR..load - RAM_ADDR + 8];
    forall ram: map<nat, byte> ensures JumpReads(ReadAndValidate(WithRam(b, ram), f), v) {
      PackageBoots(WithRam(b, ram), f, image, payload, load, ver, low, mode);
    }
  }

  lemma PackageSize(image: seq<byte>, payload: seq<byte>, load: int, ver: Version, low: Version, mode: Mode)
    requires IsPackage(image, payload, [], load, ver, low, mode)
    ensures |image| == TARGET_IMAGE_SIZE && |payload| <= FW_PAYLOAD_SIZE
  {
  }

  // From empty RAM only the payload's addresses are filled.
  lemma CopiedOnly(b: Boot, f: Faults, image: seq<byte>,
                   payload: seq<byte>, load: int, ver: Version, low: Version, mode: Mode, a: nat)
    requires |b.dev.flash| == FLASH_SIZE && IsPackage(image, payload, [], load, ver, low, mode)
    requires b.dev.flash[HDR_ADDR..HDR_ADDR + TARGET_IMAGE_SIZE] == image
    requires b.entered == None && !b.overrun && b.dev.ram == map[] && ReadAndValidate(b, f).entered.Some?
    ensures a in ReadAndValidate(b, f).dev.ram ==> RAM_ADDR <= a < RAM_ADDR + FW_PAYLOAD_SIZE
  {
    hide Decode;
    hide Validate;
    hide Signature;
    hide Digest;
    hide StoreRam;
    hide MainIntact;
    PackageIntact(b.dev, image, payload, load, ver, low, mode);
    if f(b.dev.tick) < 0 {
      NoHeader(b, f);
    } else {
      EntryMeansIntact(AfterHeaderRead(b), f, Decode(image[..HEADER_SIZE]));
      StoreRamAt(map[], RAM_ADDR, Padded(payload), a);
    }
  }

  // --------------------------------------------------------- the whole update

  predicate ExitCommand(cmd: seq<byte>) {
    |cmd| >= 3 && At(cmd, 0) == OP_SPI && At(cmd, 2) == SUB_EXIT
  }

  lemma ExitRequested(s: Session, f: Faults, exit: seq<byte>)
    requires BufferFits(s) && ExitCommand(exit)
    ensures Dispatch(s, f, exit) == (s.(boot := ModeSet(s.boot, MODE_NORMAL), exitPending := true), 0)
  {
    hide Val;
    hide RunCrc;
  }

  // The whole update, from any bootloader session and for any device: if the
  // host saw every command accepted, the exit work item starts the packaged
  // app exactly when none of its own device calls is refused, and otherwise
  // keeps the EC in the bootloader.
  lemma UpdateThenExit(s: Session, f: Faults, erase: seq<byte>, exit: seq<byte>, image: seq<byte>, auto: seq<bool>,
                       payload: seq<byte>, load: int, ver: Version, low: Version, mode: Mode)
    requires BufferFits(s) && |s.boot.dev.flash| == FLASH_SIZE && s.boot.entered == None && !s.boot.overrun
    requires QuickErase(erase) && |auto| == BLOCKS && ExitCommand(exit)
    requires IsPackage(image, payload, [], load, ver, low, mode)
    requires AllAccepted(s, f, [erase] + (Stream(image, auto, 0) + [exit]))
    ensures var e := Play(s, f, [erase] + (Stream(image, auto, 0) + [exit]));
      && e.exitPending && e.boot.entered == None && !e.boot.overrun
      && e.boot.dev.tick == s.boot.dev.tick + 1 + BLOCKS
      && var b := ExitWork(e, f).boot;
      if NoneRefused(f, e.boot.dev.tick, BootCalls(mode)) then AppRunning(b, payload, load)
      else b.entered == None && !b.overrun && b.info.mode == MODE_STAY
  {
    hide ReadAndValidate;
    hide IsPackage;
    hide AppRunning;
    hide QuickErase;
    hide Stream;
    hide NoneRefused;
    hide ExitCommand;
    hide Dispatch;
    hide AllAccepted;
    PackageSize(image, payload, load, ver, low, mode);
    var s1 := ImageStreamed(s, f, erase, image, auto, [exit]);
    ExitRequested(s1, f, exit);
    assert [exit][1..] == [];
    var e := Dispatch(s1, f, exit).0;
    assert Play(s1, f, [exit]) == e;
    PackageBoots(e.boot, f, image, payload, load, ver, low, mode);
    EnteredRuns(e, f, payload, load);
  }

  lemma ExitAlwaysAccepted(f: Faults, exit: seq<byte>)
    requires ExitCommand(exit)
    ensures AlwaysAccepted(f, [exit])
  {
    hide Dispatch;
    hide ExitCommand;
    forall e: Session | BufferFits(e) ensures AllAccepted(e, f, [exit]) {
      ExitRequested(e, f, exit);
      assert [exit][1..] == [];
    }
  }

  // The whole update in terms of the device alone: the host sees every command
  // accepted and the packaged app then runs exactly when none of the calls of
  // erase, 400 writes, header read, measurement and copy is refused.
  lemma UpdateExactly(s: Session, f: Faults, erase: seq<byte>, exit: seq<byte>, image: seq<byte>, auto: seq<bool>,
                      payload: seq<byte>, load: int, ver: Version, low: Version, mode: Mode)
    requires BufferFits(s) && |s.boot.dev.flash| == FLASH_SIZE && s.boot.entered == None && !s.boot.overrun
    requires QuickErase(erase) && |auto| == BLOCKS && ExitCommand(exit)
    requires IsPackage(image, payload, [], load, ver, low, mode)
    ensures var cmds := [erase] + (Stream(image, auto, 0) + [exit]); var e := Play(s, f, cmds);
      NoneRefused(f, s.boot.dev.tick, 1 + BLOCKS + BootCalls(mode)) <==>
        AllAccepted(s, f, cmds) && e.boot.entered == None && !e.boot.overrun
        && AppRunning(ExitWork(e, f).boot, payload, load)
  {
    hide ReadAndValidate;
    hide IsPackage;
    hide QuickErase;
    hide Stream;
    hide NoneRefused;
    hide ExitCommand;
    hide Dispatch;
    hide AllAccepted;
    hide Play;
    hide AlwaysAccepted;
    hide RamHolds;
    hide MainIntact;
    hide ExitWork;
    PackageSize(image, payload, load, ver, low, mode);
    var cmds := [erase] + (Stream(image, auto, 0) + [exit]);
    ExitAlwaysAccepted(f, exit);
    StreamAccepted(s, f, erase, image, auto, [exit]);
    RefusedInParts(f, s.boot.dev.tick, 1 + BLOCKS, BootCalls(mode));
    if AllAccepted(s, f, cmds) {
      UpdateThenExit(s, f, erase, exit, image, auto, payload, load, ver, low, mode);
    }
  }

  // The commands of the whole update in bytes: 0xAF 0x21 to erase, for each block
  // 0xA0 with its 512 bytes and 0xAA for 16 units on path 0xEA or 0x4F at
  // 0x8000 plus 512 per block, and 0xBB 0x33 to leave.
  lemma OnTheWire(image: seq<byte>, i: nat, auto: bool)
    requires |image| == TARGET_IMAGE_SIZE && i < BLOCKS
    ensures QuickErase([0xAF, 0x01, 0x21]) && ExitCommand([0xBB, 0x01, 0x33])
    ensures var c := StageCmd(image, i);
      |c| == 513 && At(c, 0) == 0xA0 && c[1..] == image[512 * i..512 * (i + 1)]
    ensures var c := CommitCmd(i, auto);
      && |c| == 7 && At(c, 0) == 0xAA && At(c, 1) == 5 && At(c, 2) == (if auto then 0xEA else 0x4F) && At(c, 3) == 16
      && At(c, 4) + 0x100 * At(c, 5) + 0x1_0000 * At(c, 6) == 0x8000 + 512 * i
  {
    CommitFields(i, auto);
    hide Chr;
    ValChr(OP_STAGE);
    ValChr(5);
    hide Val;
    AddressBytes(CommitCmd(i, auto));
    hide Le;
    hide PutLe;
  }

  lemma EnteredRuns(e: Session, f: Faults, payload: seq<byte>, load: int)
    requires e.boot.entered == None && !e.boot.overrun && |payload| <= FW_PAYLOAD_SIZE
    ensures var b := ReadAndValidate(e.boot, f);
      if b.entered.Some? || b.overrun then ExitWork(e, f).boot == b
      else ExitWork(e, f).boot.entered == None && ExitWork(e, f).boot.info.mode == MODE_STAY
  {
    hide ReadAndValidate;
  }

  // The same through a reset instead of an exit request, when retention does
  // not say STAY.
  lemma UpdateThenReset(s: Session, f: Faults, erase: seq<byte>, image: seq<byte>, auto: seq<bool>,
                        payload: seq<byte>, load: int, ver: Version, low: Version, mode: Mode)
    requires BufferFits(s) && |s.boot.dev.flash| == FLASH_SIZE && s.boot.entered == None && !s.boot.overrun
    requires QuickErase(erase) && |auto| == BLOCKS
    requires IsPackage(image, payload, [], load, ver, low, mode)
    requires AllAccepted(s, f, [erase] + Stream(image, auto, 0))
    ensures var b := AfterInit(Play(s, f, [erase] + Stream(image, auto, 0)).boot);
      b.info.mode != MODE_STAY ==>
        (AppRunning(ReadAndValidate(b, f), payload, load) <==> NoneRefused(f, b.dev.tick, BootCalls(mode)))
  {
    hide ReadAndValidate;
    hide IsPackage;
    hide AppRunning;
    hide QuickErase;
    hide Stream;
    hide NoneRefused;
    hide Dispatch;
    hide AllAccepted;
    PackageSize(image, payload, load, ver, low, mode);
    assert Stream(image, auto, 0) + [] == Stream(image, auto, 0);
    var s1 := ImageStreamed(s, f, erase, image, auto, []);
    var b := AfterInit(s1.boot);
    if b.info.mode != MODE_STAY {
      PackageBoots(b, f, image, payload, load, ver, low, mode);
    }
  }
}

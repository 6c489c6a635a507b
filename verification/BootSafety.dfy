/**
 What one validation guarantees (`driver/storage_bootloader.c:178-268`).
 */
module BootSafety {
  import opened Crc32
  import opened Device
  import opened FwUpdate
  import opened Image
  import opened Storage
  import opened Wrappers

  // The flash holds, in full, an image with this header's digest.
  predicate ImageIntact(d: Dev, h: Header) {
    && HeaderLegal(h)
    && IMG_ADDR + h.fwSize <= |d.flash|
    && (h.ctrl != VALIDATION_NONE ==> Digest(h.ctrl, d.flash[IMG_ADDR..IMG_ADDR + h.fwSize]) == h.check)
  }

  // What an intact image is, by the numbers of the header's layout and the
  // flash map.
  lemma IntactMeans(d: Dev, h: Header)
    ensures ImageIntact(d, h) <==>
              && h.magic == 0x5746_4345 && 0 < h.fwSize <= 464 * 1024 && 0x1_1020 + h.fwSize <= |d.flash|
              && (|| h.ctrl == 0
                  || (h.ctrl == 1 && U32(Crc(d.flash[0x1_1020..0x1_1020 + h.fwSize])) == h.check)
                  || (h.ctrl == 2 && ByteSum(d.flash[0x1_1020..0x1_1020 + h.fwSize]) == h.check))
  {
    hide U32;
    hide Crc;
    hide Sum32;
    hide ByteSum;
    if HeaderLegal(h) && IMG_ADDR + h.fwSize <= |d.flash| {
      ChecksumAgrees(d.flash[IMG_ADDR..IMG_ADDR + h.fwSize]);
    }
  }

  lemma IntactIgnoresTick(d: Dev, h: Header)
    ensures ImageIntact(d.(tick := d.tick + 1), h) <==> ImageIntact(d, h)
  {
    hide Digest;
  }

  lemma AcceptedIsIntact(b: Boot, f: Faults, h: Header)
    requires Accepts(b, f, h) && h.ctrl != VALIDATION_NONE
    ensures ImageIntact(b.dev, h)
  {
    hide Digest;
    ScanSucceeds(b.dev, f, IMG_ADDR, h.fwSize);
  }

  lemma LoadedWhole(b: Boot, f: Faults, h: Header)
    requires HeaderLegal(h) && Loads(b, f, h)
    ensures IMG_ADDR + Reach(h.fwSize) <= |b.dev.flash|
    ensures AfterLoad(b, f, h.fwSize).dev.ram
         == StoreRam(b.dev.ram, RAM_ADDR, b.dev.flash[IMG_ADDR..IMG_ADDR + Reach(h.fwSize)])
  {
    hide StoreRam;
    ScanSucceeds(b.dev, f, IMG_ADDR, Reach(h.fwSize));
  }

  // The check accepts, the mode is not STAY and the copy goes as far as the
  // bootloader lives to make it.
  predicate Copies(b: Boot, f: Faults, h: Header) {
    Accepts(b, f, h) && b.info.mode != MODE_STAY && Loads(AfterDigest(b, f, h), f, h)
  }

  // Such a copy ends in the app or, too long, on the bootloader's own memory.
  lemma Outcomes(b: Boot, f: Faults, h: Header)
    requires b.entered == None && !b.overrun
    ensures Validate(b, f, h).entered.Some? <==> Copies(b, f, h) && h.fwSize <= COPY_LIMIT
    ensures Validate(b, f, h).overrun <==> Copies(b, f, h) && h.fwSize > COPY_LIMIT
  {
    hide StoreRam;
    hide DigestPasses;
    hide ScanOf;
    hide Measured;
  }

  // Whatever the device refuses, an entered app is an intact image, whole in
  // RAM, entered from a mode other than STAY, with a clean slate in retention.
  lemma EntryMeansIntact(b: Boot, f: Faults, h: Header)
    requires b.entered == None && !b.overrun && Validate(b, f, h).entered.Some?
    ensures ImageIntact(b.dev, h) && b.info.mode != MODE_STAY && h.fwSize <= COPY_LIMIT
    ensures var e := Validate(b, f, h);
      && e.entered == Some(h.loadAddress) && e.dev.flash == b.dev.flash && !e.overrun
      && e.dev.ram == StoreRam(b.dev.ram, RAM_ADDR, b.dev.flash[IMG_ADDR..IMG_ADDR + h.fwSize])
      && e.retained == Some(e.info)
      && e.info.mode == MODE_NORMAL && e.info.failCount == 0 && MainIntact(e.info.corruption)
      && e.info.corruption == b.info.corruption | 0x04
  {
    hide StoreRam;
    hide DigestPasses;
    hide ScanOf;
    hide Measured;
    hide Digest;
    hide SetMainIntact;
    hide MainIntact;
    hide ClearMainIntact;
    Outcomes(b, f, h);
    var b1 := AfterDigest(b, f, h);
    LoadedWhole(b1, f, h);
    if h.ctrl != VALIDATION_NONE {
      AcceptedIsIntact(b, f, h);
    }
    MainIntactBit(AfterLoad(b1, f, h.fwSize).info.corruption);
    ClearIsMask(b.info.corruption);
  }

  // A copy that runs over the bootloader leaves the saved record alone and puts
  // image bytes where the bootloader's data was.
  lemma OverrunMeansLost(b: Boot, f: Faults, h: Header)
    requires b.entered == None && !b.overrun && Validate(b, f, h).overrun
    ensures HeaderLegal(h) && h.fwSize > COPY_LIMIT && IMG_ADDR + Reach(h.fwSize) <= |b.dev.flash|
    ensures var e := Validate(b, f, h);
      && e.entered == None && e.dev.flash == b.dev.flash && e.retained == b.retained
      && e.info.failCount == b.info.failCount && e.info.version == b.info.version && e.info.mode == b.info.mode
      && e.dev.ram == StoreRam(b.dev.ram, RAM_ADDR, b.dev.flash[IMG_ADDR..IMG_ADDR + Reach(h.fwSize)])
  {
    hide StoreRam;
    hide DigestPasses;
    hide ScanOf;
    hide Measured;
    Outcomes(b, f, h);
    LoadedWhole(AfterDigest(b, f, h), f, h);
  }

  // ------------------------------------------------------- the record it leaves

  predicate LegalFields(h: Header) {
    h.magic == 0x5746_4345 && 0 < h.fwSize <= 464 * 1024 && (h.ctrl == 0 || h.ctrl == 1 || h.ctrl == 2)
  }

  // The record says one failure more and, from the third on, STAY.
  predicate OneFailureMore(i: BootInfo, j: BootInfo) {
    && (i.failCount < 255 ==> j.failCount == i.failCount + 1) && (i.failCount >= 255 ==> j.failCount == i.failCount)
    && (j.failCount >= 3 ==> j.mode == 0xDC) && (j.failCount < 3 ==> j.mode == i.mode)
    && j.corruption == i.corruption & 0xFB
  }

  // Where the record starts: a retained one of this version is carried over with
  // its reset reason moved to last; any other retention gives a fresh one, in
  // normal mode with no failures, active images taken for intact.
  lemma RecordAtStart(b: Boot)
    ensures var e := AfterInit(b);
      && e.dev == b.dev && e.entered == b.entered && e.overrun == b.overrun && e.retained == Some(e.info)
      && e.info.version == 1 && e.info.status == 0x0B && e.info.resetReason == 0
      && (if b.retained.Some? && b.retained.value.version == 1 then
            var r := b.retained.value;
            && e.info.lastResetReason == r.resetReason
            && e.info.mode == r.mode && e.info.failCount == r.failCount && e.info.corruption == r.corruption
            && e.info.lastCrcValue == r.lastCrcValue && e.info.lastCrcStatus == r.lastCrcStatus
          else
            && e.info.lastResetReason == 1
            && e.info.mode == 0 && e.info.failCount == 0 && e.info.corruption == 0x85
            && e.info.lastCrcValue == 0 && e.info.lastCrcStatus == 0xAC)
  {
  }

  // What only resets and measurements write.
  predicate SameRest(i: BootInfo, j: BootInfo) {
    j.version == i.version && j.resetReason == i.resetReason && j.lastResetReason == i.lastResetReason
  }

  predicate SameDigest(i: BootInfo, j: BootInfo) {
    j.lastCrcValue == i.lastCrcValue && j.lastCrcStatus == i.lastCrcStatus
  }

  // A header with any other magic, size or control byte costs one failure and
  // no device call; nothing of it is entered or copied.
  lemma HeaderGate(b: Boot, f: Faults, h: Header)
    requires b.entered == None && !b.overrun
    ensures var e := Validate(b, f, h);
      && (e.entered.Some? || e.overrun || e.dev != b.dev ==> LegalFields(h))
      && (!LegalFields(h) ==>
            && e.dev == b.dev && e.entered == None && !e.overrun && e.retained == Some(e.info)
            && OneFailureMore(b.info, e.info) && SameRest(b.info, e.info) && SameDigest(b.info, e.info)
            && e.info.status == b.info.status)
  {
    hide StoreRam;
    hide ScanOf;
    hide DigestPasses;
    hide Measured;
    hide SetMainIntact;
    ClearIsMask(b.info.corruption);
    hide ClearMainIntact;
  }

  lemma ClearIsMask(c: bv8)
    ensures ClearMainIntact(c) == c & 0xFB && SetMainIntact(c) == c | 0x04
  {
  }

  // The measurement of a legal header's image succeeds on an intact one that
  // the device lets it read, and only there.
  lemma PassesExactly(d: Dev, f: Faults, h: Header)
    requires LegalFields(h) && h.ctrl != 0
    ensures DigestPasses(d, f, h) <==> ImageIntact(d, h) && NoneRefused(f, d.tick, Chunks(h.fwSize))
  {
    hide Digest;
    ScanSucceeds(d, f, IMG_ADDR, h.fwSize);
    if IMG_ADDR + h.fwSize <= |d.flash| {
      ScanUnrefused(d, f, IMG_ADDR, h.fwSize);
    }
    hide ScanOf;
  }

  // Every outcome of a validation that measures records the verdict, 0xAC or
  // 0xFA, and the value when the image could be read; one that does not
  // measure leaves both alone.
  lemma VerdictRecorded(b: Boot, f: Faults, h: Header)
    requires b.entered == None && !b.overrun
    ensures var i := Validate(b, f, h).info;
      && SameRest(b.info, i)
      && (!LegalFields(h) || h.ctrl == 0 ==> SameDigest(b.info, i))
      && (LegalFields(h) && h.ctrl != 0 ==>
            i.lastCrcStatus == (if ImageIntact(b.dev, h) && NoneRefused(f, b.dev.tick, Chunks(h.fwSize)) then 0xAC
                                else 0xFA))
      && (LegalFields(h) && h.ctrl != 0 && 0x1_1020 + h.fwSize <= |b.dev.flash|
          && NoneRefused(f, b.dev.tick, Chunks(h.fwSize)) ==>
            i.lastCrcValue == if h.ctrl == 1 then U32(Crc(b.dev.flash[0x1_1020..0x1_1020 + h.fwSize]))
                              else ByteSum(b.dev.flash[0x1_1020..0x1_1020 + h.fwSize]))
  {
    hide StoreRam;
    hide NoneRefused;
    hide Crc;
    hide U32;
    hide Sum32;
    hide ByteSum;
    hide SetMainIntact;
    hide ClearMainIntact;
    if LegalFields(h) && h.ctrl != 0 {
      PassesExactly(b.dev, f, h);
      if IMG_ADDR + h.fwSize <= |b.dev.flash| {
        ScanUnrefused(b.dev, f, IMG_ADDR, h.fwSize);
        ChecksumAgrees(b.dev.flash[IMG_ADDR..IMG_ADDR + h.fwSize]);
      }
    }
    hide ImageIntact;
    hide ScanOf;
    hide DigestPasses;
  }

  // The service's status byte reads idle after any request to it: a CRC-mode
  // measurement or the copy; a checksum-mode measurement leaves it alone.
  lemma StatusAfter(b: Boot, f: Faults, h: Header)
    requires b.entered == None && !b.overrun
    ensures Validate(b, f, h).info.status
         == if LegalFields(h) && (h.ctrl == 1 || (Accepts(b, f, h) && b.info.mode != 0xDC)) then 0x0B
            else b.info.status
  {
    hide StoreRam;
    hide ScanOf;
    hide DigestPasses;
    hide Measured;
    hide SetMainIntact;
    hide ClearMainIntact;
  }

  // A failed validation is one that neither enters nor merely stays.
  predicate Fails(b: Boot, f: Faults, h: Header) {
    !Accepts(b, f, h) || (b.info.mode != MODE_STAY && !Loads(AfterDigest(b, f, h), f, h))
  }

  lemma FailureRecorded(b: Boot, f: Faults, h: Header)
    requires b.entered == None && !b.overrun
    ensures var e := Validate(b, f, h);
      Fails(b, f, h) ==>
        && e.entered == None && !e.overrun && e.retained == Some(e.info)
        && e.info.failCount == (if b.info.failCount < 255 then b.info.failCount + 1 else b.info.failCount)
        && (e.info.failCount >= BOOT_FAIL_LIMIT ==> e.info.mode == MODE_STAY)
        && !MainIntact(e.info.corruption)
        && e.info.version == b.info.version
        && (b.info.mode == MODE_STAY ==> e.info.mode == MODE_STAY)
        && OneFailureMore(b.info, e.info) && e.dev.flash == b.dev.flash
  {
    hide Validate;
    hide MarkFail;
    hide Fails;
    hide OneFailureMore;
    if Fails(b, f, h) {
      var c := FailsMarked(b, f, h);
      MarkRecorded(c);
      SameFailure(c.info, b.info, MarkFail(c).info);
    }
  }

  lemma SameFailure(i: BootInfo, k: BootInfo, j: BootInfo)
    requires OneFailureMore(i, j) && k.failCount == i.failCount && k.mode == i.mode && k.corruption == i.corruption
    ensures OneFailureMore(k, j)
  {
  }

  // A failed validation ends in the failure record of a state that differs from
  // the first in the device and the digest fields only.
  lemma FailsMarked(b: Boot, f: Faults, h: Header) returns (c: Boot)
    requires Fails(b, f, h)
    ensures Validate(b, f, h) == MarkFail(c)
    ensures c.entered == b.entered && c.overrun == b.overrun
    ensures c.info.failCount == b.info.failCount && c.info.mode == b.info.mode && c.info.version == b.info.version
    ensures c.info.corruption == b.info.corruption && c.dev.flash == b.dev.flash
  {
    hide StoreRam;
    hide DigestPasses;
    hide ScanOf;
    hide Measured;
    hide MarkFail;
    if !HeaderLegal(h) {
      c := b;
    } else if !Accepts(b, f, h) {
      c := AfterDigest(b, f, h);
    } else {
      c := AfterLoad(AfterDigest(b, f, h), f, h.fwSize);
    }
  }

  lemma MarkRecorded(b: Boot)
    ensures var e := MarkFail(b);
      && e.entered == b.entered && e.overrun == b.overrun && e.retained == Some(e.info)
      && e.info.failCount == (if b.info.failCount < 255 then b.info.failCount + 1 else b.info.failCount)
      && (e.info.failCount >= BOOT_FAIL_LIMIT ==> e.info.mode == MODE_STAY)
      && !MainIntact(e.info.corruption)
      && e.info.version == b.info.version
      && (b.info.mode == MODE_STAY ==> e.info.mode == MODE_STAY)
      && OneFailureMore(b.info, e.info) && e.dev == b.dev
  {
    hide ClearMainIntact;
    hide MainIntact;
    MainIntactBit(b.info.corruption);
    ClearIsMask(b.info.corruption);
  }

  // A validation fails exactly when the header's fields are not legal, when a
  // measurement it asks for does not find the image intact, or when, in a mode
  // other than STAY, the copy meets the end of the flash or a refusal.
  lemma FailsExactly(b: Boot, f: Faults, h: Header)
    ensures Fails(b, f, h) <==>
              || !LegalFields(h)
              || (h.ctrl != 0 && !(ImageIntact(b.dev, h) && NoneRefused(f, b.dev.tick, Chunks(h.fwSize))))
              || (b.info.mode != 0xDC
                  && !(0x1_1020 + Reach(h.fwSize) <= |b.dev.flash| && NoneRefused(f, b.dev.tick, CallsToCopy(h))))
  {
    hide Digest;
    if LegalFields(h) {
      if h.ctrl != 0 {
        PassesExactly(b.dev, f, h);
      }
      CopiesExactly(b, f, h);
      if IMG_ADDR + Reach(h.fwSize) <= |b.dev.flash| {
        RefusedInParts(f, b.dev.tick, CallsToCopy(h) - Chunks(Reach(h.fwSize)), Chunks(Reach(h.fwSize)));
      }
      hide NoneRefused;
      hide DigestPasses;
      hide ScanOf;
    }
  }

  // An accepted image found in STAY mode is measured and nothing more.
  lemma StaysExactly(b: Boot, f: Faults, h: Header)
    requires b.entered == None && !b.overrun
    ensures var e := Validate(b, f, h);
      e.entered == None && !e.overrun && !Fails(b, f, h) <==>
        LegalFields(h) && b.info.mode == 0xDC
        && (h.ctrl == 0 || (ImageIntact(b.dev, h) && NoneRefused(f, b.dev.tick, Chunks(h.fwSize))))
    ensures var e := Validate(b, f, h);
      e.entered == None && !e.overrun && !Fails(b, f, h) ==>
        && e.retained == b.retained && e.dev.flash == b.dev.flash && e.dev.ram == b.dev.ram
        && e.info.mode == 0xDC && e.info.failCount == b.info.failCount && e.info.corruption == b.info.corruption
  {
    hide ScanOf;
    hide StoreRam;
    hide Measured;
    hide ImageIntact;
    hide NoneRefused;
    if LegalFields(h) && h.ctrl != 0 {
      PassesExactly(b.dev, f, h);
    }
    hide DigestPasses;
  }

  // The check sees every corruption confined to four consecutive bytes: such
  // an image never starts and costs the bootloader one failure.
  lemma BurstRejected(b: Boot, f: Faults, h: Header, pre: seq<byte>, v: seq<byte>, w: seq<byte>, post: seq<byte>)
    requires b.entered == None && !b.overrun && h.ctrl == VALIDATION_CRC
    requires h.check == U32(Crc(pre + v + post))
    requires |v| == |w| <= 4 && v != w
    requires h.fwSize == |pre + w + post| && IMG_ADDR + h.fwSize <= |b.dev.flash|
    requires b.dev.flash[IMG_ADDR..IMG_ADDR + h.fwSize] == pre + w + post
    ensures !Accepts(b, f, h) && Fails(b, f, h)
    ensures Validate(b, f, h).entered == None
  {
    hide Crc;
    hide U32;
    hide StoreRam;
    BurstDetected(pre, v, w, post);
    U32Faithful(Crc(pre + v + post), Crc(pre + w + post));
    if Accepts(b, f, h) {
      AcceptedIsIntact(b, f, h);
    }
    Outcomes(b, f, h);
  }

  // The device calls of a validation that makes its copy.
  function CallsToCopy(h: Header): nat
    requires h.fwSize >= 0
  {
    (if h.ctrl == VALIDATION_NONE then 0 else Chunks(h.fwSize)) + Chunks(Reach(h.fwSize))
  }

  // The flash has what the check asks for and what the copy lives to read.
  predicate Copyable(d: Dev, h: Header) {
    && HeaderLegal(h) && IMG_ADDR + Reach(h.fwSize) <= |d.flash|
    && (h.ctrl != VALIDATION_NONE ==> ImageIntact(d, h))
  }

  lemma AcceptsIntact(b: Boot, f: Faults, h: Header)
    requires ImageIntact(b.dev, h) && h.ctrl != VALIDATION_NONE
    ensures Accepts(b, f, h) <==> NoneRefused(f, b.dev.tick, Chunks(h.fwSize))
    ensures Accepts(b, f, h) ==> AfterDigest(b, f, h).dev == b.dev.(tick := b.dev.tick + Chunks(h.fwSize))
  {
    hide Digest;
    ScanUnrefused(b.dev, f, IMG_ADDR, h.fwSize);
    hide ScanOf;
  }

  lemma CopiesExactly(b: Boot, f: Faults, h: Header)
    ensures Copies(b, f, h) <==>
              Copyable(b.dev, h) && b.info.mode != MODE_STAY && NoneRefused(f, b.dev.tick, CallsToCopy(h))
  {
    hide Digest;
    if Copies(b, f, h) {
      LoadedWhole(AfterDigest(b, f, h), f, h);
      if h.ctrl != VALIDATION_NONE {
        AcceptedIsIntact(b, f, h);
      }
    }
    if Copyable(b.dev, h) {
      if h.ctrl != VALIDATION_NONE {
        AcceptsIntact(b, f, h);
        RefusedInParts(f, b.dev.tick, Chunks(h.fwSize), Chunks(Reach(h.fwSize)));
      }
      ScanUnrefused(AfterDigest(b, f, h).dev, f, IMG_ADDR, Reach(h.fwSize));
      hide ScanOf;
      hide ImageIntact;
      hide NoneRefused;
    }
  }

  // The app is entered if and only if the flash holds an intact image for the
  // header, short enough to leave the bootloader standing, the mode is not STAY
  // and the device refuses none of the calls.
  lemma EntersExactly(b: Boot, f: Faults, h: Header)
    requires b.entered == None && !b.overrun
    ensures Validate(b, f, h).entered.Some? <==>
              && ImageIntact(b.dev, h) && h.fwSize <= COPY_LIMIT
              && b.info.mode != MODE_STAY && NoneRefused(f, b.dev.tick, CallsToCopy(h))
  {
    hide Digest;
    hide Validate;
    hide Copies;
    Outcomes(b, f, h);
    CopiesExactly(b, f, h);
    hide NoneRefused;
  }

  // A longer one, up to what the size check admits, is lost instead: neither
  // entered nor recorded as a failure.
  lemma OverrunsExactly(b: Boot, f: Faults, h: Header)
    requires b.entered == None && !b.overrun
    ensures Validate(b, f, h).overrun <==>
              && Copyable(b.dev, h) && h.fwSize > COPY_LIMIT
              && b.info.mode != MODE_STAY && NoneRefused(f, b.dev.tick, CallsToCopy(h))
    ensures Validate(b, f, h).overrun ==> !Fails(b, f, h) && Validate(b, f, h).entered == None
  {
    hide Digest;
    hide Validate;
    hide Copyable;
    Outcomes(b, f, h);
    CopiesExactly(b, f, h);
    hide NoneRefused;
  }

  lemma ValidateLoads(b: Boot, f: Faults, h: Header)
    requires Copies(b, f, h)
    ensures HeaderLegal(h) && Validate(b, f, h).dev == AfterLoad(AfterDigest(b, f, h), f, h.fwSize).dev
  {
    hide StoreRam;
    hide DigestPasses;
    hide ScanOf;
    hide Measured;
    hide AfterLoad;
    hide SetMainIntact;
  }

  // What such a validation does to the device.
  lemma CopyDevice(b: Boot, f: Faults, h: Header)
    requires Copies(b, f, h)
    ensures Copyable(b.dev, h)
    ensures Validate(b, f, h).dev
         == Dev(b.dev.flash, StoreRam(b.dev.ram, RAM_ADDR, b.dev.flash[IMG_ADDR..IMG_ADDR + Reach(h.fwSize)]),
                b.dev.tick + CallsToCopy(h))
  {
    hide StoreRam;
    hide Digest;
    hide Validate;
    CopiesExactly(b, f, h);
    ValidateLoads(b, f, h);
    if h.ctrl != VALIDATION_NONE {
      AcceptsIntact(b, f, h);
    }
    ScanUnrefused(AfterDigest(b, f, h).dev, f, IMG_ADDR, Reach(h.fwSize));
  }

  // ------------------------------------------------------ where the copy goes

  // The addresses from `lo` up to `hi` keep what they held.
  ghost predicate Spared(lo: nat, hi: nat, before: map<nat, byte>, after: map<nat, byte>) {
    forall a :: lo <= a < hi ==> (a in after <==> a in before) && (a in before ==> after[a] == before[a])
  }

  function WithRam(b: Boot, ram: map<nat, byte>): Boot {
    b.(dev := b.dev.(ram := ram))
  }

  // What RAM held decides nothing, and the copy is the same.
  lemma CopyWithRam(b: Boot, f: Faults, h: Header, ram: map<nat, byte>)
    requires b.entered == None && !b.overrun && Copies(b, f, h)
    ensures HeaderLegal(h) && IMG_ADDR + Reach(h.fwSize) <= |b.dev.flash|
    ensures Validate(WithRam(b, ram), f, h).dev.ram
         == StoreRam(ram, RAM_ADDR, b.dev.flash[IMG_ADDR..IMG_ADDR + Reach(h.fwSize)])
  {
    hide Validate;
    hide Copies;
    hide Digest;
    hide StoreRam;
    CopiesExactly(b, f, h);
    CopiesExactly(WithRam(b, ram), f, h);
    Outcomes(WithRam(b, ram), f, h);
    if h.fwSize <= COPY_LIMIT {
      EntryMeansIntact(WithRam(b, ram), f, h);
    } else {
      OverrunMeansLost(WithRam(b, ram), f, h);
    }
  }

  lemma StoreSpares(lo: nat, hi: nat, image: seq<byte>)
    requires RAM_ADDR <= lo < hi
    ensures (forall ram: map<nat, byte> :: Spared(lo, hi, ram, StoreRam(ram, RAM_ADDR, image)))
            <==> RAM_ADDR + |image| <= lo
  {
    hide StoreRam;
    if RAM_ADDR + |image| <= lo {
      forall ram: map<nat, byte> ensures Spared(lo, hi, ram, StoreRam(ram, RAM_ADDR, image)) {
        forall a | lo <= a < hi
          ensures a in StoreRam(ram, RAM_ADDR, image) <==> a in ram
          ensures a in ram ==> StoreRam(ram, RAM_ADDR, image)[a] == ram[a]
        {
          StoreRamAt(ram, RAM_ADDR, image, a);
        }
      }
    } else {
      StoreRamAt(map[], RAM_ADDR, image, lo);
      assert !Spared(lo, hi, map[], StoreRam(map[], RAM_ADDR, image));
    }
  }

  // Whatever RAM held, a copy from RAM_ADDR stays off the addresses from `lo`
  // on exactly when the header's size ends below them.
  lemma CopySpares(b: Boot, f: Faults, h: Header, lo: nat, hi: nat)
    requires b.entered == None && !b.overrun && Copies(b, f, h)
    requires RAM_ADDR <= lo < hi && lo <= OWN_RAM
    ensures (forall ram: map<nat, byte> :: Spared(lo, hi, ram, Validate(WithRam(b, ram), f, h).dev.ram))
            <==> h.fwSize <= lo - RAM_ADDR
  {
    hide Validate;
    hide StoreRam;
    hide Copies;
    hide Spared;
    CopyWithRam(b, f, h, map[]);
    var image := b.dev.flash[IMG_ADDR..IMG_ADDR + Reach(h.fwSize)];
    forall ram: map<nat, byte>
      ensures Validate(WithRam(b, ram), f, h).dev.ram == StoreRam(ram, RAM_ADDR, image)
    {
      CopyWithRam(b, f, h, ram);
    }
    StoreSpares(lo, hi, image);
  }

  const APP_PARTITION: nat := 200 * 1024

  // The size check bounds the copy neither by the 200 KiB app partition nor by
  // the bootloader's own memory: exactly the header's size does.
  lemma CopyFitsPartition(b: Boot, f: Faults, h: Header, end: nat)
    requires b.entered == None && !b.overrun && Copies(b, f, h) && RAM_ADDR + APP_PARTITION < end
    ensures var past := RAM_ADDR + APP_PARTITION;
      (forall ram: map<nat, byte> :: Spared(past, end, ram, Validate(WithRam(b, ram), f, h).dev.ram))
      <==> h.fwSize <= APP_PARTITION
  {
    hide Validate;
    hide Copies;
    CopySpares(b, f, h, RAM_ADDR + APP_PARTITION, end);
  }

  lemma CopySparesBootloader(b: Boot, f: Faults, h: Header)
    requires b.entered == None && !b.overrun && Copies(b, f, h)
    ensures (forall ram: map<nat, byte> ::
               Spared(0x11_8000, 0x12_7800, ram, Validate(WithRam(b, ram), f, h).dev.ram))
            <==> h.fwSize <= 288 * 1024
    ensures Validate(b, f, h).entered.Some? <==> h.fwSize <= 288 * 1024
  {
    hide Validate;
    hide Copies;
    CopySpares(b, f, h, OWN_RAM, OWN_RAM_END);
    Outcomes(b, f, h);
  }

  function Unmeasured(size: nat): Header {
    ZERO_HEADER.(magic := MAGIC, fwSize := size)
  }

  const BLANK: Boot := Boot(Dev(Erased(FLASH_SIZE), map[], 0), ZERO_INFO, None, None, false)

  // Both sides are met on the real part: 250 KiB, past the partition, is
  // entered; 300 KiB is lost.
  lemma OversizeEntered(f: Faults)
    requires forall t :: f(t) >= 0
    ensures var e := Validate(BLANK, f, Unmeasured(250 * 1024));
      e.entered.Some? && RAM_ADDR + APP_PARTITION in e.dev.ram
  {
    hide Validate;
    hide StoreRam;
    var h := Unmeasured(250 * 1024);
    EntersExactly(BLANK, f, h);
    EntryMeansIntact(BLANK, f, h);
    StoreRamAt(map[], RAM_ADDR, BLANK.dev.flash[IMG_ADDR..IMG_ADDR + h.fwSize], RAM_ADDR + APP_PARTITION);
  }

  lemma OversizeLost(f: Faults)
    requires forall t :: f(t) >= 0
    ensures var e := Validate(BLANK, f, Unmeasured(300 * 1024));
      e.overrun && OWN_RAM in e.dev.ram
  {
    hide Validate;
    hide StoreRam;
    var h := Unmeasured(300 * 1024);
    OverrunsExactly(BLANK, f, h);
    OverrunMeansLost(BLANK, f, h);
    StoreRamAt(map[], RAM_ADDR, BLANK.dev.flash[IMG_ADDR..IMG_ADDR + Reach(h.fwSize)], OWN_RAM);
  }

  // Run-CRC and boot-time validation record the same value and verdict for a
  // well-formed CRC-mode header, also when the CRC request itself fails.
  lemma RunCrcAgrees(b: Boot, f: Faults)
    requires b.entered == None
    requires Ret(b.dev, f, HDR_ADDR, HEADER_SIZE) == 0
    requires HeaderLegal(HeaderSeen(b.dev, f)) && HeaderSeen(b.dev, f).ctrl == VALIDATION_CRC
    ensures RunCrc(b, f).info.lastCrcValue == ReadAndValidate(b, f).info.lastCrcValue
    ensures RunCrc(b, f).info.lastCrcStatus == ReadAndValidate(b, f).info.lastCrcStatus
  {
    hide StoreRam;
    hide Crc;
    hide U32;
    hide Decode;
    hide ClearMainIntact;
    hide SetMainIntact;
    ScanSucceeds(AfterHeaderRead(b).dev, f, IMG_ADDR, HeaderSeen(b.dev, f).fwSize);
    hide ScanOf;
  }
}

# EC firmware: update, boot, notification and fan control, verified

A Dafny model of the embedded controller's firmware-update and boot pipeline,
its flash request service, its host-notification (SCI) protocol, its ACPI byte
framer and its fan control law, with proofs of what each of them guarantees.
`dafny verify dfyconfig.toml` checks all of it.

## How it is organised

| file | content |
|---|---|
| `Wrappers`, `Folds`, `Bytes` | option and result types, left folds, byte conversion |
| `Crc32` | CRC-32 (section 3.2.9 of IEEE 802.3; zlib's form as in section 8 of RFC 1952) |
| `Device`, `FlashOps` | the flash device with refusable calls, and one request on it |
| `Image` | the 32-byte header and the packaging tool |
| `Storage` | the bootloader's storage driver: measuring, validating, loading, boot info |
| `FwUpdate`, `HostCommands` | the update command handlers, and every command in the numbers of the wire format |
| `BootSafety`, `BootHistory` | what one validation, and any history of boots, guarantees |
| `ImageRaces`, `SharedBuffer`, `EnterRace` | validation among other users of the flash service, of the chunk buffer and of the boot info |
| `UpdateStream`, `EndToEnd` | command streams, and the path from packer to running app |
| `FlashService` | many blocking callers, a four-slot queue and one worker, interleaved |
| `Sci`, `SciRaces`, `SciService` | the notification protocol per shared access, the schedules it cannot stand, and per whole call |
| `Acpi`, `HostReads` | the byte framer, and the framer joined to the notification protocol |
| `FanLaw`, `FanTables`, `FanService` | the control law, the shipped tables, the service loop |

Modules that change state in place in the firmware are classes here
(`Storage.Driver`, `FwUpdate.Updater`, `FlashService.Service`,
`SciService.Notifier`, `Acpi.Framer`, `FanService.FanControl`).  Each method is
proved equal to a function on the object's abstract value (`View`), and the
theorems are about those functions, single steps and whole runs.

## Reading the model

- Device calls are numbered; an arbitrary function from call number to return
  code decides which are refused.  A refused call changes nothing.  Programming
  can only clear bits, erasing sets them.
- A schedule is a list of steps; a step that is not enabled leaves the state
  alone, so a statement about every list is about every interleaving.
- Where a claim turned out to be false of the code, the code was kept:
  `BootSafety.CopyFitsPartition` and `BootSafety.CopySparesBootloader` (the size
  check admits more than the RAM partition holds, and more than the copy can
  make without overwriting the running bootloader; `BootHistory.LossesUncounted`
  is the reset loop this gives), `ImageRaces.CopiedExactly` (a host command
  served inside a validation can change what it copies;
  `ImageRaces.DisturbedCopy` is such a run), `SharedBuffer.DigestsExactly` (two
  loops measuring at once can digest each other's chunks;
  `SharedBuffer.WrongSumAccepted` is such a run),
  `EnterRace.RequestLostExactly` (a host request during the copy is
  overwritten; `EnterRace.RequestLost` is such a run), `Sci.LineExactly` and
  `SciRaces.LineBySchedule` (a host read between filling the slot and raising
  the line leaves the line high until the next read, flush or event;
  `SciRaces.LateReadRun` gets there from start-up),
  `SciRaces.TimeoutExactly` (a timeout not yet handled when the next event's
  timer starts lowers that event's line; `SciRaces.StaleTimeoutRun` gets there),
  `EndToEnd.VectorsFromPackage` (the load address is not compared with the copy),
  `FanTables.MonotoneExactly` (from 256.0 degrees on the reading wraps and the
  fan stops), `FanService.ConstraintSurvives` (the next turn in S0 lifts the
  SoC-CP fan constraint) and `Acpi.ExactlyOnce` (any length other than the kept
  mandatory one can run the handler more than once) state exactly when
  the code does meet them.
- What the theorems' shared definitions mean is stated separately, in the numbers
  of the wire format, the header and the flash map: `HostCommands` for every
  command, `BootSafety.HeaderGate`, `IntactMeans`, `FailsExactly` and
  `RecordAtStart` for validation and its record, `FlashService.CallAnswered` for
  the requests, `Image.PackedHeader` and `Crc32.TimesX` for the packaged file,
  `FanTables.ShippedCurves` for the fans.
- Memory the bootloader runs on (`sram0` from 0x118000 and the retention memory
  up to 0x127800) is apart from the RAM the model copies images to until a copy
  reaches it; what overwritten code does next is not determined, so such a
  validation is an outcome of its own (`overrun`, phase `Lost`), from which only
  a reset or a loss of power leads on.
- The code and its comments disagree on 0xA0: the comments speak of 1 to 512,
  or at most 256, bytes; the mandatory length of 513 and the handler's limit
  together accept exactly 512 bytes of payload.  The model follows the code.

## Model

| member | source | states |
|---|---|---|
| Crc32.ZlibIsCrc | tools/pack_ec_image.py:36-40 | For every byte string the packer's CRC-32, in the byte-table form of section 8 of RFC 1952, is the bit-serial register the bootloader's CRC computes. |
| Crc32.TimesX | driver/storage_bootloader.c:86-95 | One clock of the register multiplies it by x and reduces it modulo the generator of section 3.2.9 of IEEE 802.3, given by its exponents. |
| Crc32.CheckValue | tools/pack_ec_image.py:36-40 | Both forms give the standard's check value 0xCBF43926 for the string 123456789, which also fixes bit order, start value and inversion. |
| Crc32.UpdateConcat | driver/storage_bootloader.c:86-95 | Continuing a CRC over a second piece equals one pass over both pieces, although every update inverts its register on the way in and out. |
| Crc32.BurstDetected | tools/pack_ec_image.py:36-40 | Two images of one length that differ only inside four consecutive bytes never have the same CRC. |
| Image.ChecksumAgrees | driver/storage_bootloader.c:46-52 | Adding byte by byte in 32 bits gives the packer's masked byte sum for any data, and never wraps up to the 464 KiB the bootloader accepts. |
| Image.LeOfPutLe | tools/pack_ec_image.py:72-86 | Storing a number in k little-endian bytes and reading it back is the identity for every number that fits. |
| Image.HeaderRoundTrip | tools/pack_ec_image.py:48-91 | Reading the 32 packed bytes with the bootloader's packed structure returns every field, for all values in range. |
| Image.HeaderLayout | interface/storage.h:36-72 | The structure reads each field from its documented offset, numbers low byte first. |
| Image.DecodeInjective | interface/storage.h:36-72 | No two different 32-byte headers are read as the same fields. |
| Image.SignatureIsDigest | tools/pack_ec_image.py:136-148 | In both signing modes the signature the packer stores is the digest the bootloader computes over the same bytes. |
| Image.SignatureSamples | tools/pack_ec_image.py:136-148 | The signature of 123456789 in CRC mode is 0xCBF43926 as a number, and that of one byte in checksum mode is its value. |
| Image.PackFirmware | tools/pack_ec_image.py:93-167 | Empty and oversized payloads, and fields that do not fit, are errors; otherwise the file is a header that reads back as given, the payload padded with 0xFF to 200 KiB less 32 bytes with its signature, then the auxiliary data. |
| Image.PackedHeader | tools/pack_ec_image.py:48-91 | A packaged file starts with ECFW, load address, size 204768, versions, control byte 0, 1 or 2, the signature over bytes 32 to 204800 and the auxiliary size, each at its offset, with zeros between them. |
| Image.PackedBody | tools/pack_ec_image.py:113-150 | After the header come the payload, 0xFF up to 200 KiB, then the auxiliary data, byte by byte. |
| Device.ScanSucceeds | driver/storage_bootloader.c:86-97 | A 512-byte-chunk pass succeeds exactly when no chunk is refused, and has then moved precisely the region named. |
| Device.ScanUnrefused | driver/storage_bootloader.c:86-97 | Over a region that exists a pass succeeds exactly when the device refuses none of its calls, and takes that many calls. |
| Storage.Driver.ReadFlash | driver/storage_bootloader.c:55-68 | A read fills the buffer with the flash bytes or, refused, leaves it alone. |
| Storage.Driver.GetImageHeader | driver/storage_bootloader.c:70-77 | The header read delivers the 32 bytes at the header address or a negative code. |
| Storage.Driver.CalImageCrc | driver/storage_bootloader.c:79-98 | The chunk loop returns the CRC of everything it managed to read taken in one piece: on success, of the whole region, for every size. |
| Storage.Driver.CalChecksum | driver/storage_bootloader.c:46-52 | One chunk's loop is the 32-bit sum continued from its start value. |
| Storage.Driver.CalImageChecksum | driver/storage_bootloader.c:100-119 | The chunk loop returns the 32-bit byte sum of everything it managed to read taken in one piece. |
| Storage.Driver.LoadImageToRam | driver/storage_bootloader.c:123-139 | The chunk requests leave in RAM exactly the bytes read before the first refusal, contiguous from the app's RAM address; a copy of more than 288 KiB that nothing refuses runs onto the bootloader's own memory and does not return. |
| Storage.Driver.BootInfoMarkFail | driver/storage_bootloader.c:160-171 | A failure clears the intact bit, counts up to 255, forces STAY from the third on, and is saved. |
| Storage.Driver.CheckDigest | driver/storage_bootloader.c:206-237 | The digest value and verdict are recorded, a failed CRC request counting as value 0, and the result says whether the digest matched. |
| Storage.Driver.ValidateImageHeader | driver/storage_bootloader.c:178-268 | Magic, size, control flag, digest, mode and copy are decided in that order with each outcome's effect on device and boot info, the copy over the bootloader's own memory included; true is returned exactly when the app was entered. |
| Storage.Driver.InitConfig | driver/storage_bootloader.c:274-308 | Usable retention is carried over with its reset reason moved to last; anything else starts a fresh record; both are saved. |
| Storage.Driver.ReadHeaderAndValidate | bootloader/main.c:51-68 | Start-up reads the header, keeping the zeroed one when the read fails, and validates it. |
| Storage.Driver.Execute | service/flash/service.c:30-66 | Executing a message has the effect and return code of that one request on the device. |
| Storage.Driver.FlashRequest | service/flash/service.c:95-150 | To its caller a request is the device operation; the status byte is idle afterwards and a malformed request changes nothing. |
| FlashOps.LoadChunk | driver/storage_bootloader.c:129-136 | Loading one more chunk extends the copied prefix by exactly that chunk, or changes nothing but the call count. |
| BootSafety.EntersExactly | driver/storage_bootloader.c:178-268 | The app is entered if and only if the flash holds an intact image for the header, its size is at most 288 KiB, the mode is not STAY and the device refuses none of the calls, whose number is given. |
| BootSafety.EntryMeansIntact | driver/storage_bootloader.c:178-268 | Whatever the device refuses, an entered app means the whole image in flash has the header's digest, all of it is in RAM, it ends below the bootloader's memory, control is at the load address, and the saved record is NORMAL, count 0, intact. |
| BootSafety.HeaderGate | driver/storage_bootloader.c:185-204 | A header with another magic than 0x57464345, a size of 0 or above 464 KiB or a control byte above 2 is neither entered nor copied: it costs exactly one recorded failure and no device call. |
| BootSafety.IntactMeans | driver/storage_bootloader.c:206-237 | Intact means: legal fields, the whole image inside the flash from 0x11020, and its CRC in mode 1, its byte sum in mode 2 equal to the header's check value. |
| BootSafety.VerdictRecorded | driver/storage_bootloader.c:206-237 | Every outcome of a measuring validation records 0xAC exactly for an intact image none of whose reads is refused, else 0xFA, and the measured value when it could be read; one that does not measure leaves both alone. |
| BootSafety.StatusAfter | driver/storage_bootloader.c:123-139 | The status byte reads idle after a CRC-mode measurement or a copy; otherwise a validation leaves it alone. |
| BootSafety.FailsExactly | driver/storage_bootloader.c:185-253 | A validation fails if and only if the fields are not legal, a measurement does not find the image intact, or in a mode other than STAY the copy meets the end of the flash or a refusal. |
| BootSafety.StaysExactly | driver/storage_bootloader.c:246-249 | It stays in the bootloader if and only if the mode is STAY and the image is accepted, and then changes neither RAM nor the saved record, nor mode, count and flags. |
| BootSafety.RecordAtStart | driver/storage_bootloader.c:280-305 | A retained record of version 1 is carried over with its reset reason moved to last; anything else starts in normal mode, count 0, flags 0x85, last reset by power-on, CRC status 0xAC; either way status 0x0B, reset reason none, saved. |
| BootSafety.OverrunsExactly | driver/storage_bootloader.c:191-265 | The bootloader is lost to its own copy if and only if an accepted image, in a mode other than STAY and refused no call up to there, is longer than 288 KiB; that outcome is neither an entry nor a recorded failure. |
| BootSafety.OverrunMeansLost | driver/storage_bootloader.c:123-139 | A lost validation has entered nothing and saved nothing, kept mode and count, and left image bytes where the bootloader's data was. |
| BootSafety.AcceptedIsIntact | driver/storage_bootloader.c:206-237 | An accepted digest is the digest of the complete image, never of a prefix. |
| BootSafety.FailureRecorded | driver/storage_bootloader.c:160-171 | Every failed validation is saved with count one higher (255 at most), intact bit clear, mode STAY from the third on and the flash untouched, and neither enters the app nor loses the bootloader. |
| BootSafety.BurstRejected | driver/storage_bootloader.c:206-237 | An image corrupted inside four consecutive bytes is refused and counted as a failure. |
| BootSafety.CopyFitsPartition | driver/storage_bootloader.c:191-196 | The size check admits 464 KiB: whatever RAM held before, the copy stays inside the 200 KiB RAM partition, up to any bound beyond it, if and only if the header's size does. |
| BootSafety.CopySparesBootloader | modules/app/boards/microchip/qc_module/qc_module.dts:97-107 | Whatever RAM held before, the copy keeps off the bootloader's data RAM and the retention memory if and only if the header's size is at most 288 KiB, and then alone is the app entered. |
| BootSafety.OversizeEntered | driver/storage_bootloader.c:191-265 | An image of 250 KiB is accepted and entered on the 512 KiB part, and its copy runs past the partition. |
| BootSafety.OversizeLost | modules/app/boards/microchip/qc_module/qc_module.dts:97-107 | An image of 300 KiB is accepted there too, and its copy reaches the bootloader's data RAM. |
| BootSafety.RunCrcAgrees | service/acpi/ec_fw_update_bootloader.c:400-433 | Run-CRC and boot-time validation record the same value and verdict for every legal CRC-mode header, also when the CRC request fails. |
| BootHistory.StepSound | driver/storage_bootloader.c:274-308 | Every reset, power loss, host request, CRC run, flash rewrite and app write keeps the working and the retained boot record in step. |
| BootHistory.PowerUpSound | driver/storage_bootloader.c:274-308 | Whatever retention and RAM hold at power-up, provided a usable record's count is one byte, the world before the first reset meets what the history theorems start from. |
| BootHistory.FailCountAccounting | driver/storage_bootloader.c:160-171 | In every history, boots lost to an oversize copy included, the stored count is the number of failed validations since the last jump or retention loss, capped at 255. |
| BootHistory.EntryJustified | driver/storage_bootloader.c:246-265 | In every history the app is entered only by a validation, begun in a mode other than STAY, that found the current header and image intact in the flash as it then is. |
| BootHistory.LimitLocks | driver/storage_bootloader.c:165-170 | The failure that brings the count to three locks the EC in the bootloader, in any history. |
| BootHistory.LockedForever | driver/storage_bootloader.c:246-249 | Once locked, no sequence of resets, flash rewrites, CRC runs or pending exit work reaches the app without an exit request or a retention loss. |
| BootHistory.ThreeStrikes | driver/storage_bootloader.c:160-171 | Three failed resets in a row lock the EC, whatever follows short of an exit request or a retention loss. |
| BootHistory.AppRequestHonoured | app/main.c:60-67 | An app that asks for the bootloader is in it after the next reset, locked, whatever image is in flash, with that reason reported; one that asks for itself is entered again exactly when its image is intact, at most 288 KiB and readable. |
| BootHistory.AppRecord | driver/storage.c:38-64 | The app writes the retained record, or a fresh one with flags 0x8D, with the mode and, to enter the bootloader, reason 5 put in. |
| BootHistory.ExitResolves | service/acpi/ec_fw_update_bootloader.c:435-451 | A processed exit request ends in the app or locked in the bootloader with mode STAY, except exactly when it loses the bootloader. |
| BootHistory.LosesExactly | bootloader/main.c:51-68 | Reading the header and validating loses the bootloader exactly when the header read is that of an intact image over 288 KiB, the mode is not STAY and no later call up to the end of the copy is refused. |
| BootHistory.LossesUncounted | driver/storage_bootloader.c:160-171 | With such an image in flash and a usable retained record not saying STAY, every reset on an unrefusing device loses the bootloader and none is counted, so any number of them leaves the EC unlocked. |
| FwUpdate.Updater.EraseDesignatedRegion | service/acpi/ec_fw_update_bootloader.c:177-199 | Erases the given number of 4 KiB sectors at the 24-bit address moved by 0x9000, or reports the refusal. |
| FwUpdate.Updater.EraseParticularPartition | service/acpi/ec_fw_update_bootloader.c:207-274 | Sub-command 0x21 clears the backup flag, erases header and image and puts the cursor at the header even when the erase fails; every other sub-command only saves the record. |
| FwUpdate.Updater.WriteRamBuffer | service/acpi/ec_fw_update_bootloader.c:280-298 | Stages exactly 512-byte payloads and refuses every other length, leaving the buffer alone. |
| FwUpdate.Updater.WriteDesignatedRegion | service/acpi/ec_fw_update_bootloader.c:304-349 | Programs the smaller of 32 times the unit count and the staged length at the addressed or the cursor position; the cursor advances only on success. |
| FwUpdate.Updater.RunCrcIntActMain | service/acpi/ec_fw_update_bootloader.c:400-433 | Records value, verdict and intact bit for the image the header describes, a failure for anything unreadable. |
| FwUpdate.Updater.SpiServices | service/acpi/ec_fw_update_bootloader.c:459-570 | Enter, exit, run-CRC, reset and crash sub-commands have their effect on the record and the pending exit; the unsupported ones return success or an error unchanged. |
| FwUpdate.Updater.ExitBootloaderWork | service/acpi/ec_fw_update_bootloader.c:435-451 | The work item validates and, if it comes back, sets and saves STAY. |
| HostCommands.StageCommand | service/acpi/ec_fw_update_bootloader.c:280-298 | 0xA0 succeeds exactly with 512 bytes behind it, which become the staged ones one by one; otherwise it answers an error and changes nothing. |
| HostCommands.CommitCommand | service/acpi/ec_fw_update_bootloader.c:304-349 | 0xAA on path 0x4F or 0xEA clears bits by the staged bytes at the address plus 0x9000 or at the cursor, at most 32 times the units and at most what is staged, and moves the cursor past them, exactly when there are some, they lie in the flash and the device takes them; else flash and cursor stay. |
| HostCommands.EraseCommand | service/acpi/ec_fw_update_bootloader.c:177-199 | 0xAE sets exactly the bytes of the named 4096-byte sectors, from the address plus 0x9000, to 0xFF, or changes no byte. |
| HostCommands.QuickEraseCommand | service/acpi/ec_fw_update_bootloader.c:207-274 | 0xAF 0x21 sets bytes 0x11000 to 0x43000 to 0xFF when the device agrees, and puts the cursor there, clears flag 0x08 and saves in any case; other sub-commands only save. |
| HostCommands.ServiceCommand | service/acpi/ec_fw_update_bootloader.c:459-570 | For every 0xBB sub-command: 0xDC and 0x33 save mode STAY and NORMAL, the latter leaving an exit pending, 0xCC, 0xC0 to 0xC2 save their reset reason and restart, 0xF0 runs the CRC, the mirror, sync and other CRC ones answer 0 and the rest an error, changing nothing. |
| HostCommands.ReasonHandedOver | driver/storage_bootloader.c:284-305 | The reason a restart command saves is reported as the last reset by the next start and by that one only, while mode, count and flags come through both. |
| HostCommands.RunCrcExactly | service/acpi/ec_fw_update_bootloader.c:400-433 | Run-CRC records 0xAC and sets flag 0x04 if and only if header and image can be read, the size is allowed and the image's CRC is the header's check value; else it records 0xFA and clears it, with the value read or 0. |
| HostCommands.EventsAreCommands | service/acpi/ec_fw_update_bootloader.c:471-520 | The host requests of a boot history are these commands. |
| HostCommands.EnterIsCommand | service/acpi/ec_fw_update_bootloader.c:471-476 | The two accesses of a request during a validation, made without a break, are the command that enters the bootloader. |
| UpdateStream.AutoStep | service/acpi/ec_fw_update_bootloader.c:304-349 | One stage or AUTO commit programs its bytes at the cursor and moves the cursor past them, or changes neither flash nor cursor. |
| UpdateStream.AutoStreaming | service/acpi/ec_fw_update_bootloader.c:280-349 | For every sequence of stage and AUTO commit commands, malformed ones and refused writes included, the cursor has advanced by the bytes programmed and the erased region holds the committed prefixes in order followed by erased flash. |
| UpdateStream.QuickEraseStep | service/acpi/ec_fw_update_bootloader.c:219-247 | The quick erase leaves the main partition erased exactly when the device did not refuse, and the cursor at its start. |
| UpdateStream.RegionEraseStep | service/acpi/ec_fw_update_bootloader.c:184-198 | A sector erase succeeds exactly when it names at least one sector inside the flash that the device does not refuse; it then erases those sectors and nothing else, and otherwise changes nothing. |
| UpdateStream.EraseThenStream | service/acpi/ec_fw_update_bootloader.c:207-349 | After a quick erase that succeeded, the main partition is the committed stream over erased flash. |
| EndToEnd.ImageStreamed | service/acpi/ec_fw_update_bootloader.c:280-349 | For any device: if the host saw the erase and the stage and commit of all 400 blocks to consecutive addresses return zero, each block over either path, the partition holds exactly the image. |
| EndToEnd.StreamAccepted | service/acpi/ec_fw_update_bootloader.c:207-349 | The host sees erase and all 400 staged and committed blocks accepted, each over either path, if and only if the device refuses none of its 401 calls. |
| EndToEnd.OnTheWire | service/acpi/ec_fw_update_bootloader.c:177-349 | The update's commands in bytes: 0xAF 0x21, for each block 0xA0 with its 512 bytes and 0xAA for 16 units on path 0xEA or 0x4F at 0x8000 plus 512 per block, low byte first, then 0xBB 0x33. |
| EndToEnd.PackageBoots | driver/storage_bootloader.c:178-268 | A packaged image in flash, in any signing mode, starts from any mode other than STAY exactly when the device refuses none of the calls: padded payload in RAM, control at the load address, record NORMAL, count 0, intact. |
| EndToEnd.ColdBoot | driver/storage_bootloader.c:274-308 | The first start of a board, nothing usable in retention and a package at 0x11000: the payload runs from 0xD0000 if and only if the device refuses none of the 401 or, signed, 801 calls, leaving a clean record. |
| EndToEnd.VectorsFromPackage | bootloader/main.c:25-47 | Nothing compares the load address with the copy: the jump reads its stack pointer and entry from the package, whatever RAM held, if and only if those eight bytes lie in the copied payload; for the RAM address they are its first eight. |
| EndToEnd.UpdateThenExit | service/acpi/ec_fw_update_bootloader.c:435-486 | From any session and for any device: once the host saw erase, stream and exit request accepted, the exit work starts the packaged app exactly when none of its own device calls is refused, and otherwise leaves the EC in STAY. |
| EndToEnd.UpdateExactly | service/acpi/ec_fw_update_bootloader.c:177-486 | The whole update as one equivalence over the device: every command is accepted and the exit work then runs the packaged app if and only if no call of erase, writes, header read, measurement and copy is refused. |
| EndToEnd.UpdateThenReset | driver/storage_bootloader.c:274-308 | The same through a reset, unless retention says STAY. |
| FlashService.Linearizable | service/flash/service.c:68-150 | For any number of callers and every interleaving, flash and RAM equal running the served requests one at a time in queue order; every finished call returned its own request's result, had been served by then, and is returned once; a failed CRC leaves the caller's variable alone. |
| FlashService.CallAnswered | service/flash/service.c:30-150 | Every call that has returned, in any schedule, was answered as its caller asked: success exactly when the flash has the range and refuses none of the calls, then the write, erase, read, CRC or load took place at the caller's own address and size, the read's bytes and the CRC being those of the flash at that point of the serial run; a failed one changed neither flash nor RAM. |
| FlashService.CallsAccounted | service/flash/service.c:95-150 | In every schedule each thread's calls, with the arguments it made them with, are answered in the order it made them, but for the one it is in. |
| FlashService.RequestIsCall | service/flash/service.c:104-131 | The message of every accepted call names the caller's command, address, size and destination, and a write the caller's bytes. |
| FlashService.AcceptedExactly | service/flash/service.c:99-131 | A call reaches the queue exactly when its command is 0 to 4, its address not negative, its size not zero and the pointers the command needs are there. |
| FlashService.NextKeeps | service/flash/service.c:68-150 | Every step of any thread or of the worker keeps the service invariant. |
| FlashService.StatusTracksWorker | service/flash/service.c:78-85 | The status byte reads busy exactly while a request is being executed. |
| FlashService.SomeoneMoves | service/flash/service.c:133-143 | No deadlock: while a call is outstanding the worker, a completed caller or a caller with queue space can move. |
| FlashService.PassIsSteps | service/flash/service.c:71-89 | One uninterrupted turn of the worker is its six steps. |
| FlashService.Service.RequestBegin | service/flash/service.c:99-131 | Rejects exactly the malformed argument combinations and prepares a fresh result cell for the rest. |
| FlashService.Service.RequestPut | service/flash/service.c:133-137 | Enqueues when one of the four slots is free, else blocks with nothing changed. |
| FlashService.Service.RequestFinish | service/flash/service.c:139-149 | Returns the result cell once the completion is given, copying the CRC out only for a successful CRC call. |
| FlashService.Service.WorkerTurn | service/flash/service.c:71-89 | One turn takes the oldest message, executes it, fills its caller's cell and signals it. |
| ImageRaces.CopiedExactly | driver/storage_bootloader.c:123-139 | For any list of served requests, accepted or refused: RAM ends with the measured image, for every content of the flash, if and only if the last accepted load over each byte's place takes it from its own place in flash and no accepted erase, and no accepted write of anything but 0xFF, met it there before. |
| ImageRaces.CheckedIsCopied | driver/storage_bootloader.c:123-139 | In every schedule of the flash service, among any other users: a CRC call that returned good, followed by requests meeting that condition, leaves in RAM exactly the bytes the CRC was taken over. |
| ImageRaces.CopyBrings | driver/storage_bootloader.c:129-136 | The copy's own chunk requests, none refused and nothing else served between, meet that condition for every size. |
| ImageRaces.ValidationIsJobs | driver/storage_bootloader.c:206-253 | A CRC-mode validation that makes its copy does to the device what one CRC request and the copy's chunk requests, served in that order, do. |
| ImageRaces.DisturbedCopy | driver/storage_bootloader.c:206-253 | The condition is needed: for an image of any size, a 32-byte host commit served between the CRC and the copy puts into RAM bytes with another CRC, every call returning success. |
| ImageRaces.CallRuns | service/flash/service.c:95-150 | An uncontended call is a schedule whose outcome is that one request on the device and its reply to the caller. |
| SharedBuffer.DigestsExactly | driver/storage_bootloader.c:79-119 | A checksum loop and a CRC loop over the image, from their starts and interleaved in any way through the one chunk buffer: the first digests the image, whatever the flash holds, if and only if it uses no chunk after the buffer was refilled with a different one. |
| SharedBuffer.AloneIsScan | driver/storage_bootloader.c:100-119 | Undisturbed, the loop digests what the driver's pass over the image reads. |
| SharedBuffer.TangledSees | driver/storage_bootloader.c:79-119 | In one five-step interleaving of both loops a two-chunk image is digested as its first chunk twice. |
| SharedBuffer.WrongSumAccepted | driver/storage_bootloader.c:100-119 | So a run of both loops over one region accepts an image whose checksum is not the header's; such an image exists (WrongSumExists). |
| EnterRace.AloneValidates | driver/storage_bootloader.c:178-268 | The validation's separate accesses, uninterrupted, are the validation. |
| EnterRace.RequestLostExactly | service/acpi/ec_fw_update_bootloader.c:471-476 | In every interleaving that enters the app although a host request to enter the bootloader returned success: the request came after the mode was read, and retention has forgotten it if and only if it also came before the validation stored NORMAL. |
| EnterRace.RequestLost | driver/storage_bootloader.c:246-265 | Every validation that would enter the app has such a run: the request is handled during the copy, returns success and leaves no trace. |
| Sci.StepConserves | service/sci/service.c:63-213 | Every single shared access of every thread keeps accepted events = settled, pending, carried, purged and queued, in order. |
| Sci.Conservation | service/sci/service.c:63-213 | In every reachable state the accepted events in order are those delivered or dropped, the pending one, then the queue, and the host's answers are exactly the delivered ones. |
| Sci.DeliveredInOrder | service/sci/service.c:63-128 | With no flush so far, answers, pending and queued events concatenated are the accepted events. |
| Sci.NoLostWakeup | service/sci/service.c:153-213 | In every interleaving, whenever the service waits with no bit up and nobody owes a post: allowed and queue empty or an event pending, or disallowed and nothing queued, nothing pending, line low. |
| Sci.StepTold | service/power/service.c:92-97 | Each step keeps that argument, because every change of power state, enable flag or queue comes before its post and the bits are cleared before they are handled. |
| Sci.LineMeansPending | service/sci/service.c:166-174 | Line high implies an event pending or a lowering under way, in every schedule where no host read falls between filling the slot and raising the line. |
| Sci.LineExactly | service/sci/service.c:166-174 | All along a schedule the line is high only for a pending event or a lowering under way if and only if the line is never raised over a slot a read has already emptied and finished with. |
| Sci.LateReadSticks | service/sci/service.c:166-174 | In the schedules so excluded the claim fails: a read in that window leaves the line high with nothing pending, nothing queued, no bit up and nobody owing a post. |
| Sci.WindowReached | service/sci/service.c:153-174 | The window occurs in an ordinary run: the service publishing while the host begins a read. |
| SciRaces.LineBySchedule | service/sci/service.c:109-174 | The line is high only for a reason, then and after the service's next step, at every point of exactly those schedules in which no read that emptied the slot lowers the line before the service raises it. |
| SciRaces.LateReadRun | service/sci/service.c:109-174 | From start-up one event and one read in the window leave the line stuck high, and it stays so through any further steps, the timer's expiry included, that bring no new event, no read that lowers it and no flush. |
| SciRaces.StuckStep | service/sci/service.c:109-213 | Of all single steps only the lowering step of a read takes a stuck line down; the timeout does not, since nothing is pending. |
| SciRaces.TimeoutExactly | service/sci/service.c:166-212 | At single accesses, every timeout that lowers the line, along a schedule and in the service's next four steps after any prefix of it, is that of the last published event if and only if the timer is never started over an unhandled timeout with the event still pending. |
| SciRaces.TimeoutsFromStart | service/sci/service.c:166-212 | From start-up the same equivalence holds along every schedule, and a fresh schedule leaves the service's next four steps safe as well. |
| SciRaces.OnlyOwnTimeouts | service/sci/service.c:166-212 | In every schedule that keeps this condition a timeout lowers the line of its own event only. |
| SciRaces.StaleStartLowers | service/sci/service.c:166-212 | A timer started otherwise lowers the new event's line with the old event's timeout four uninterrupted steps later, and no other start does. |
| SciRaces.StaleTimeoutRun | service/sci/service.c:31-34 | From start-up: the timer fires and the host reads just after the service woke, and the next event is left pending with its line lowered by that stale timeout. |
| SciService.LineTimerAlways | service/sci/service.c:109-213 | At the grain of whole calls and turns, line high always has an event pending with its own timer armed or expired. |
| SciService.OnlyOwnTimeoutLowers | service/sci/service.c:182-213 | A turn that lowers the line under a pending event does so for that event's own timeout, never for an earlier one's. |
| SciService.RoundDelivers | service/sci/service.c:109-180 | Each turn-and-read round hands the host exactly the next event. |
| SciService.RoundsDrain | service/sci/service.c:109-180 | With no new input, as many rounds as there are events drain the service and deliver them in order. |
| SciService.EnqueueAnswers | service/sci/service.c:79-107 | The none code is an error, a full queue of 16 is another, what is disabled or outside S0 and modern standby is dropped with success, and only otherwise does the queue grow, by that event. |
| SciService.SwitchesGovern | service/sci/service.c:53-56 | Disabled, or outside S0 and modern standby, events are dropped on arrival and the next turn leaves nothing queued, pending or signalled; enabled in one of those they are taken while there is room and the next turn keeps all of them and has one pending. |
| SciService.TurnIsSteps | service/sci/service.c:198-212 | A whole turn is an uninterrupted run of the fine-grained service steps. |
| SciService.GetIsSteps | service/sci/service.c:109-128 | A whole read is an uninterrupted run of its fine-grained steps. |
| SciService.EnqueueIsSteps | service/sci/service.c:79-107 | A whole enqueue is an uninterrupted run of its fine-grained steps. |
| SciService.SwitchIsSteps | service/sci/service.c:53-56 | A switch by the host, a change of power state and the timer's expiry are their fine-grained steps. |
| SciService.Notifier.SciEnque | service/sci/service.c:79-107 | Refuses the none code, drops silently when disabled or in the wrong power state, reports a full queue, else appends and posts. |
| SciService.Notifier.AcpiSciGet | service/sci/service.c:109-128 | Returns and clears the pending event, stops the timer, lowers the line and posts. |
| SciService.Notifier.SciFlush | service/sci/service.c:63-77 | Drops the pending and all queued events, stops the timer and lowers the line. |
| SciService.Notifier.SciNotifyHdl | service/sci/service.c:153-180 | Flushes when not allowed; else publishes the oldest event when none is pending. |
| SciService.Notifier.SciTimeoutHdl | service/sci/service.c:182-193 | Lowers the line and keeps the pending event. |
| SciService.Notifier.LoopTurn | service/sci/service.c:198-212 | Handles an expired timer before a notification, clearing each bit before its handler. |
| Acpi.FramingExact | service/acpi/service.c:40-148 | For every transfer and end mark, with handler runs that begin and end anywhere between the bytes, once nothing is owed the last run saw the whole transfer, unchanged while it ran, if and only if it fits the buffer with a byte to spare. |
| Acpi.MandKept | service/acpi/service.c:62-68 | The mandatory length in force is that of the first entry for the opcode modulo 256, and zero for an opcode nobody registered. |
| Acpi.ReachesHandler | service/acpi/service.c:40-135 | So the last run calls entry n's handler with exactly the bytes sent if and only if n is the first entry for the opcode, has a handler and its full mandatory length is there, although lengths are kept in eight bits (513 as 1). |
| Acpi.ExactlyOnce | service/acpi/service.c:71-93 | Every schedule and any number of end marks give exactly one handler run if and only if the transfer is as long as the kept mandatory length. |
| Acpi.EndedCaught | service/acpi/service.c:87-92 | After an end mark the handler is going to run, is running undisturbed or last ran undisturbed on what the buffer then holds. |
| Acpi.SteadyHonest | service/acpi/service.c:103-148 | At every point of every schedule a handler run still counted as undisturbed has before it the buffer and length it began with. |
| Acpi.TransferArrives | service/acpi/service.c:46-85 | The bytes of a transfer are in the buffer in order with the count to match, whatever runs between them. |
| Acpi.Framer.LookUp | service/acpi/service.c:62-68 | The mandatory count of the first entry with this opcode in eight bits, or zero when there is none. |
| Acpi.Framer.AcpiBufSet | service/acpi/service.c:40-101 | One byte or end mark moves buffer, index, mandatory count, dispatch flag and event bit as specified, a full buffer starting over. |
| Acpi.Framer.AcpiCmdHdl | service/acpi/service.c:103-135 | One run calls the handler of the first entry with the buffered opcode when it has one and the bytes suffice, and fails exactly for an opcode in no entry. |
| HostReads.OneRead | service/sci/service.c:109-147 | A one-byte read command with any number of end marks, its handler and the SCI service interleaved access by access in any way, begins and completes exactly one read. |
| HostReads.ReadTakesOne | service/sci/service.c:109-147 | That read answers with the event in the slot at the access that empties it, and the accepted events stay accounted for in order: none is skipped or given twice. |
| HostReads.ReadHappens | service/sci/service.c:109-147 | From any state at rest there is such a run, with an end mark in the middle of it: it ends at rest, one run and one answer further, the slot empty. |
| HostReads.OtherCommand | service/acpi/service.c:103-135 | Any other command, whatever is registered for it and however its bytes, end marks and handler runs interleave with the service, leaves the notification protocol as it would have been. |
| FanLaw.CheckFanRpm | service/fan/service.c:132-154 | The nested scan returns 100 times the greatest demand over the sources, with the temperature reduced to eight bits. |
| FanLaw.DemandIsGreatest | service/fan/service.c:143-149 | For arbitrary host-written rows the scan yields the greatest speed of a band holding the reading, or zero. |
| FanLaw.WantedIsGreatest | service/fan/service.c:135-149 | Over all sources the greatest demand of any table at its source's temperature, whole degrees in eight bits. |
| FanLaw.TargetExact | service/fan/service.c:151-151 | The product with 100 never overflows 16 bits. |
| FanLaw.LookupClosedForm | service/fan/service.c:143-149 | For a well-formed table the scan equals the speed of the last row that starts below the reading. |
| FanLaw.CalFanPwm | driver/fan.c:430-470 | The segment search returns the specified duty for every table with rising speeds and every target. |
| FanLaw.NoOverflow | driver/fan.c:457-465 | No intermediate leaves 32 bits and no result 16, so the division is the exact line rounded down. |
| FanLaw.Interpolates | driver/fan.c:455-467 | The duty is exact at every measured point, stays between its neighbours and lies less than one count below the exact line. |
| FanLaw.PwmInRange | driver/fan.c:446-469 | The fall-through value is never returned and every duty is within the table's range. |
| FanLaw.PwmMonotone | driver/fan.c:430-470 | A higher target never gets a lower duty. |
| FanLaw.PulseIsShare | driver/fan.c:416-416 | The pulse is the duty's share of 65536 of the 40000 ns period, rounded down. |
| FanLaw.HotterNeverSlower | service/fan/service.c:132-154 | For well-formed tables and temperatures below 256 degrees, raising any source never lowers the pulse, which stays below the period. |
| FanTables.MonotoneExactly | service/fan/service.c:143-143 | The law is monotone below a bound exactly when the bound is 2560 tenths: beyond it the eight-bit reading wraps and the fan stops. |
| FanTables.ShippedMonotone | driver/fan.c:36-70 | Both shipped fans with the profile loaded at start satisfy the tables' conditions and that exact bound. |
| FanTables.ShippedCurves | driver/fan.c:36-135 | For any two temperatures, the pulse in nanoseconds of each shipped fan with the profile loaded at start, as a step curve over the warmer reading. |
| FanService.RunTracks | service/fan/service.c:184-202 | Over every run, a fan is reported on exactly while its last good reading turns, and exactly when its state-change notifications are odd in number. |
| FanService.TurnNotices | service/fan/service.c:184-210 | A turn raises, once each, 0x30 and 0x31 for the fans that have started or stopped, 0x32 and 0x33 for those whose speed is out of their limits, and nothing else. |
| FanService.TurnEffect | service/fan/service.c:182-247 | After a turn the permission follows the power state unless every fan is in debug mode; each fan has the speed last read and the pulse its debug setting or its tables demand, but that outside S0 taking the permission away is all that happens to the first fan not in debug mode. |
| FanService.DebugDrives | service/fan/service.c:98-119 | By the low bits of its debug mode a fan is due its tables' pulse, none, the duty for a fixed speed, or a fixed share of 256 of the period. |
| FanService.OrdersTaken | service/fan/service.c:358-470 | A trip point, debug or table order for one fan changes that fan's block as given and nothing else. |
| FanService.ConstraintSurvives | interface/fan.h:112-121 | A constraint that fans stay off survives a turn in S0 if and only if every fan is in debug mode, unlike the header's promise. |
| FanService.HotterTurn | service/fan/service.c:132-246 | In S0, hotter sources never make a turn of the loop slow any fan. |
| FanService.FanControl.FanTmpSet | service/fan/service.c:65-75 | Stores a temperature at its source, numbered from one, and refuses others (TempTaken says so value by value). |
| FanService.FanControl.CheckFanDebug | service/fan/service.c:98-119 | Debug mode drives the fan off, at a fixed speed or at a fixed duty, and tells the loop to skip the rest. |
| FanService.FanControl.TurnOne | service/fan/service.c:182-247 | One fan's part of the loop: measure, notify, check limits, then debug, permission or table control in that order. |
| FanService.FanControl.LoopTurn | service/fan/service.c:180-248 | One turn of the loop serves every fan in order. |

## Left out

- Only the `qc_module` board is modelled; the RAM address of the app partition is the packer's default load address, 0xD0000.
- Zephyr's queue, semaphore, event, timer, work item and retention are simple abstract objects; retention writes and GPIO writes succeed. Zephyr and zlib sources are not part of this model.
- BootSafety.EntryMeansIntact: one validation alone with the device and the boot info; requests of other threads inside it are the subject of `ImageRaces`, `SharedBuffer` and `EnterRace`.
- BootHistory.EntryJustified: each validation, run-CRC and update command is one event of a history, so a flash change inside a validation is left to `ImageRaces` and a mode change inside it to `EnterRace`.
- BootHistory.LockedForever: the same; requests handled inside a validation are not events of a history.
- BootHistory.LossesUncounted: assumes the overwritten bootloader ends in a reset (say, by a fault or the watchdog) with the retained record as it was; `Astray` covers every other record it may leave.
- EnterRace.RequestLostExactly: the flash is not changed meanwhile, and the handler's store and save are its only accesses.
- SharedBuffer.DigestsExactly: both loops measure with the same header size, and the image is not rewritten while they do (`ImageRaces` has that case for the CRC path).
- ImageRaces.CheckedIsCopied: CRC mode; in checksum mode the measurement is a loop of reads, not one request.
- FlashService.Linearizable: takes the chunk buffer as the worker's own; a checksum-mode validation in another thread shares it (`SharedBuffer`).
- The jump itself is a terminal outcome; sleep, wake, GPIO, PWM, ADC and I2C register access are not modelled.
- Addresses and sizes are unbounded integers where the code's 32-bit `off_t` and `size_t` cannot wrap for a flash below 4 GiB; the write cursor, checksum, CRC, fan and framer widths are explicit.
- The null checks of `ec_get_image_header`, `ec_cal_image_crc`, `ec_cal_image_checksum` and `ec_validate_image_header` are not modelled: their callers pass addresses of variables.
- The read-back commands 0xA7 and 0xA1, so streams contain neither; 0xA7 overwrites the RAM buffer without touching the staged length.
- Mirror, sync and external-flash sub-commands only return their code; version, capability and status read-outs have a fixed reply each.
- The auxiliary data the packer appends is carried, but the end-to-end theorems take it as empty: the 400 blocks cover the 200 KiB partition only.
- UpdateStream.AutoStreaming: streams without INT-path commits, which move the cursor as well; EndToEnd.ImageStreamed mixes both paths block by block.
- Sci.LineMeansPending: excludes schedules in which a read falls between filling the slot and raising the line, because there it can fail; Sci.LineExactly and SciRaces.LineBySchedule give the exact schedules.
- Sci.WindowReached: starts from the waiting service; SciRaces.LateReadRun is the run from start-up.
- SciService.OnlyOwnTimeoutLowers: holds at the grain of whole calls and turns; at single accesses it is false (SciRaces.StaleTimeoutRun) and SciRaces.TimeoutExactly gives the exact schedules.
- Acpi.Framer.AcpiCmdHdl: the method makes a whole run at once; runs with bytes arriving inside them are the events `HandlerBegins` and `HandlerEnds` of the framer's theorems.
- HostReads.OneRead: no enable command is handled while the read command is, since one thread handles both.
- Acpi.Framer.AcpiBufSet: an unknown event type is not modelled, since its callers pass the three listed ones.
- The second address on the bus and its SoC-CP handlers, thermal thresholds, AOSS parsing, buttons and blinking add one branch each.
- Liveness of the power service loop: only its order of assigning, then posting, is used.
- `fan_rpm_write` has no caller, and host-written fan tables enter as whole replacements; the byte layout of the fan commands is not modelled.
- SciService.EnqueueAnswers: the error code of a full queue is a symbol unlike the others; its number is the C library's.
- FanService.RunTracks: notifications raised by the fan service are counted as raised; whether the SCI service accepts them is the business of `SciService`.
- Shell commands, logging and simulators.

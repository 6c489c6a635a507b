/**
 Boot histories: the bootloader and the app taking turns over resets, power
 losses, host requests, flash rewrites and the app's own writes of the boot
 mode.  Everything that survives a reset lives in flash or retention.
 */
module BootHistory {
  import opened BootSafety
  import opened Crc32
  import opened Device
  import opened FlashOps
  import opened FwUpdate
  import opened Image
  import opened Storage
  import opened Wrappers

  // `Lost`: a copy has overwritten the running bootloader.
  datatype Phase = Off | InBootloader | InApp | Lost

  // `failures` counts the failed validations since the last jump or retention
  // loss, on top of what a lost bootloader may have written there.
  datatype World = World(s: Session, phase: Phase, failures: nat)

  datatype Event =
    | Reset
    | PowerLoss(garbage: Option<BootInfo>)
    | HostEnter
    | HostExit
    | ExitWorkRuns
    | HostRunCrc
    | FlashChange(flash: seq<byte>)
    | AppSetsMode(stay: bool)
    | Astray(retained: Option<BootInfo>)

  const REASON_ENTER: nat := 5

  // ------------------------------------------------------------------ events

  // The state a validation starts from, for the two events that validate.
  function BootState(w: World): Boot {
    AfterInit(w.s.boot.(entered := None, overrun := false))
  }

  function Attempt(w: World, e: Event): Option<Boot> {
    if e.Reset? then Some(BootState(w))
    else if e.ExitWorkRuns? && w.phase == InBootloader && w.s.exitPending then Some(w.s.boot)
    else None
  }

  predicate AttemptFails(b: Boot, f: Faults) {
    Fails(AfterHeaderRead(b), f, HeaderSeen(b.dev, f))
  }

  function CountAfter(n: nat, b: Boot, f: Faults): nat {
    if ReadAndValidate(b, f).entered.Some? then 0 else if AttemptFails(b, f) then n + 1 else n
  }

  function PhaseOf(b: Boot): Phase {
    if b.entered.Some? then InApp else if b.overrun then Lost else InBootloader
  }

  // The app reads boot info from retention, or starts it afresh, and writes
  // it back with the mode changed.
  function AppInfo(r: Option<BootInfo>): BootInfo {
    if RetentionUsable(r) then r.value
    else ZERO_INFO.(
      version := BOOT_INFO_VERSION, mode := MODE_NORMAL, resetReason := REASON_UNKNOWN,
      lastResetReason := REASON_POR, lastCrcStatus := CRC_PASSED,
      corruption := STATUS_VALID | ACT_MAIN_INTACT | BK_MAIN_INTACT | ACT_BOOT_INTACT)
  }

  function AppWrites(r: Option<BootInfo>, stay: bool): Option<BootInfo> {
    var i := AppInfo(r);
    Some(if stay then i.(mode := MODE_STAY, resetReason := REASON_ENTER) else i.(mode := MODE_NORMAL))
  }

  function Next(w: World, e: Event, f: Faults): World
    requires Sound(w)
  {
    match e
    case Reset =>
      var b := ReadAndValidate(BootState(w), f);
      World(w.s.(boot := b, exitPending := false), PhaseOf(b), CountAfter(w.failures, BootState(w), f))
    case PowerLoss(garbage) =>
      // a retention area that still checks out is no loss
      if RetentionUsable(garbage) then w
      else World(w.s.(boot := w.s.boot.(retained := garbage), exitPending := false), Off, 0)
    case HostEnter =>
      if w.phase == InBootloader then w.(s := w.s.(boot := ModeSet(w.s.boot, MODE_STAY))) else w
    case HostExit =>
      if w.phase == InBootloader
      then w.(s := w.s.(boot := ModeSet(w.s.boot, MODE_NORMAL), exitPending := true)) else w
    case ExitWorkRuns =>
      if Attempt(w, e) == None then w
      else
        var s := ExitWork(w.s, f);
        World(s, PhaseOf(s.boot), CountAfter(w.failures, w.s.boot, f))
    case HostRunCrc =>
      if w.phase == InBootloader then w.(s := w.s.(boot := RunCrc(w.s.boot, f))) else w
    case FlashChange(flash) =>
      w.(s := w.s.(boot := w.s.boot.(dev := w.s.boot.dev.(flash := flash))))
    case AppSetsMode(stay) =>
      if w.phase == InApp
      then w.(s := w.s.(boot := w.s.boot.(retained := AppWrites(w.s.boot.retained, stay)))) else w
    case Astray(retained) =>
      // what the overwritten bootloader leaves, a one-byte count in any case
      if w.phase != Lost || (RetentionUsable(retained) && retained.value.failCount > 255) then w
      else if RetentionUsable(retained) then
        World(w.s.(boot := w.s.boot.(retained := retained)), Lost, retained.value.failCount)
      else World(w.s.(boot := w.s.boot.(retained := retained)), Off, 0)
  }

  // ----------------------------------------------------------------- invariant

  function Capped(n: nat): nat {
    if n < 255 then n else 255
  }

  predicate Sound(w: World) {
    && (w.s.boot.entered.Some? || w.s.boot.overrun ==> w.phase != InBootloader)
    && (w.phase == InBootloader ==> w.s.boot.retained.Some? && Tracks(w.s.boot.info, w.s.boot.retained.value))
    && (if RetentionUsable(w.s.boot.retained) then w.s.boot.retained.value.failCount == Capped(w.failures)
        else w.failures == 0 && w.phase == Off)
  }

  // Retention lags the working copy only in the digest fields.
  predicate Tracks(i: BootInfo, r: BootInfo) {
    i.version == r.version && i.mode == r.mode && i.failCount == r.failCount
  }

  lemma AttemptKeeps(b: Boot, f: Faults, n: nat)
    requires b.entered == None && !b.overrun && b.retained.Some? && Tracks(b.info, b.retained.value)
    requires b.info.version == BOOT_INFO_VERSION && b.info.failCount == Capped(n)
    ensures var e := ReadAndValidate(b, f);
      && e.retained.Some? && Tracks(e.info, e.retained.value) && e.info.version == BOOT_INFO_VERSION
      && e.info.failCount == Capped(CountAfter(n, b, f))
      && (e.entered.Some? ==> b.info.mode != MODE_STAY && ImageIntact(b.dev, HeaderSeen(b.dev, f)))
      && (AttemptFails(b, f) && e.info.failCount >= BOOT_FAIL_LIMIT ==> e.info.mode == MODE_STAY)
      && (b.info.mode == MODE_STAY ==> e.info.mode == MODE_STAY)
      && (e.overrun ==> b.info.mode != MODE_STAY && e.entered == None && !AttemptFails(b, f))
      && (AttemptFails(b, f) ==> e.entered == None)
  {
    hide ImageIntact;
    hide Accepts;
    hide HeaderSeen;
    var c, h := AfterHeaderRead(b), HeaderSeen(b.dev, f);
    hide Copies;
    Outcomes(c, f, h);
    FailureRecorded(c, f, h);
    if Validate(c, f, h).overrun {
      OverrunMeansLost(c, f, h);
      OverrunsExactly(c, f, h);
    } else if Validate(c, f, h).entered.Some? {
      EntryMeansIntact(c, f, h);
      assert ImageIntact(b.dev, h) by { IntactIgnoresTick(b.dev, h); }
      EnteredKeepsVersion(c, f, h);
    } else if !Fails(c, f, h) {
      StaysQuietly(c, f, h);
    }
  }

  lemma EnteredKeepsVersion(b: Boot, f: Faults, h: Header)
    requires b.entered == None && !b.overrun && Validate(b, f, h).entered.Some?
    ensures Validate(b, f, h).info.version == b.info.version
  {
    hide StoreRam;
    hide ScanOf;
    hide DigestPasses;
    hide Measured;
  }

  // Accepted in STAY mode: only the digest fields move.
  lemma StaysQuietly(b: Boot, f: Faults, h: Header)
    requires b.entered == None && !b.overrun && !Fails(b, f, h)
    requires Validate(b, f, h).entered == None && !Validate(b, f, h).overrun
    ensures b.info.mode == MODE_STAY
    ensures var e := Validate(b, f, h);
      e.retained == b.retained && e.info.mode == b.info.mode
      && e.info.failCount == b.info.failCount && e.info.version == b.info.version
  {
    hide StoreRam;
    hide ScanOf;
    hide DigestPasses;
    hide Measured;
    Outcomes(b, f, h);
  }

  lemma RunCrcKeeps(b: Boot, f: Faults)
    ensures var e := RunCrc(b, f);
      e.entered == b.entered && e.overrun == b.overrun && e.retained == Some(e.info) && Tracks(e.info, b.info)
  {
    hide Serve;
    hide U32;
    hide SetMainIntact;
    hide ClearMainIntact;
    hide HeaderSeen;
  }

  lemma StepSound(w: World, e: Event, f: Faults)
    requires Sound(w)
    ensures Sound(Next(w, e, f))
  {
    hide ReadAndValidate;
    hide RunCrc;
    hide AttemptFails;
    match e
    case Reset => AttemptKeeps(BootState(w), f, w.failures);
    case ExitWorkRuns =>
      if w.phase == InBootloader && w.s.exitPending {
        AttemptKeeps(w.s.boot, f, w.failures);
      }
    case HostRunCrc => RunCrcKeeps(w.s.boot, f);
    case _ =>
  }

  // ------------------------------------------------------------ whole histories

  function Run(w: World, es: seq<Event>, f: Faults): (r: World)
    requires Sound(w)
    ensures Sound(r)
    decreases |es|
  {
    if es == [] then w
    else
      StepSound(w, es[0], f);
      Run(Next(w, es[0], f), es[1..], f)
  }

  lemma {:induction false} RunConcat(w: World, a: seq<Event>, b: seq<Event>, f: Faults)
    requires Sound(w)
    ensures Run(w, a + b, f) == Run(Run(w, a, f), b, f)
    decreases |a|
  {
    if a == [] {
      assert a + b == b;
    } else {
      assert (a + b)[1..] == a[1..] + b;
      StepSound(w, a[0], f);
      RunConcat(Next(w, a[0], f), a[1..], b, f);
    }
  }

  // In every history the stored count is the number of failed validations
  // since the last jump or retention loss, capped at 255.
  lemma FailCountAccounting(w: World, es: seq<Event>, f: Faults)
    requires Sound(w)
    ensures var r := Run(w, es, f);
      RetentionUsable(r.s.boot.retained) ==> r.s.boot.retained.value.failCount == Capped(r.failures)
    ensures var r := Run(w, es, f);
      r.phase == InBootloader ==> r.s.boot.info.failCount == Capped(r.failures)
  {
  }

  // In every history the app is entered only by a validation, started from a
  // mode other than STAY, that just found the current header and image intact.
  lemma EntryJustified(w: World, es: seq<Event>, e: Event, f: Faults)
    requires Sound(w)
    requires var u := Run(w, es, f); Next(u, e, f).phase == InApp && (u.phase != InApp || e.Reset?)
    ensures var u := Run(w, es, f);
      && Attempt(u, e).Some?
      && Attempt(u, e).value.info.mode != MODE_STAY
      && ImageIntact(Attempt(u, e).value.dev, HeaderSeen(Attempt(u, e).value.dev, f))
      && Attempt(u, e).value.dev.flash == u.s.boot.dev.flash
  {
    hide ReadAndValidate;
    hide RunCrc;
    hide AttemptFails;
    hide ImageIntact;
    hide HeaderSeen;
    var u := Run(w, es, f);
    match e
    case Reset => AttemptKeeps(BootState(u), f, u.failures);
    case ExitWorkRuns =>
      if u.phase == InBootloader && u.s.exitPending {
        AttemptKeeps(u.s.boot, f, u.failures);
      }
    case _ =>
  }

  // The bootloader has the EC and retention says to keep it.
  predicate Locked(w: World) {
    && w.phase != InApp && w.phase != Lost
    && RetentionUsable(w.s.boot.retained)
    && w.s.boot.retained.value.mode == MODE_STAY
  }

  predicate Unlocks(e: Event) {
    e.HostExit? || (e.PowerLoss? && !RetentionUsable(e.garbage))
  }

  lemma LockedStep(w: World, e: Event, f: Faults)
    requires Sound(w) && Locked(w) && !Unlocks(e)
    ensures Locked(Next(w, e, f))
  {
    hide ReadAndValidate;
    hide RunCrc;
    hide AttemptFails;
    hide ImageIntact;
    hide HeaderSeen;
    match e
    case Reset => AttemptKeeps(BootState(w), f, w.failures);
    case ExitWorkRuns =>
      if w.phase == InBootloader && w.s.exitPending {
        AttemptKeeps(w.s.boot, f, w.failures);
      }
    case HostRunCrc => RunCrcKeeps(w.s.boot, f);
    case _ =>
  }

  // No sequence of resets, flash rewrites, CRC runs or pending exit work gets
  // a locked EC into the app: only an exit request or a retention loss can.
  lemma {:induction false} LockedForever(w: World, es: seq<Event>, f: Faults)
    requires Sound(w) && Locked(w)
    requires forall e :: e in es ==> !Unlocks(e)
    ensures Locked(Run(w, es, f))
    decreases |es|
  {
    if es != [] {
      LockedStep(w, es[0], f);
      StepSound(w, es[0], f);
      LockedForever(Next(w, es[0], f), es[1..], f);
    }
  }

  // The failure that reaches the limit locks the EC.
  lemma LimitLocks(w: World, e: Event, f: Faults)
    requires Sound(w) && Attempt(w, e).Some? && AttemptFails(Attempt(w, e).value, f)
    requires w.failures + 1 >= BOOT_FAIL_LIMIT
    ensures Locked(Next(w, e, f))
  {
    hide ReadAndValidate;
    hide HeaderSeen;
    hide ImageIntact;
    var b := Attempt(w, e).value;
    AttemptKeeps(b, f, w.failures);
    FailedDoesNotEnter(b, f);
  }

  lemma FailedDoesNotEnter(b: Boot, f: Faults)
    requires b.entered == None && !b.overrun && AttemptFails(b, f)
    ensures ReadAndValidate(b, f).entered == None && !ReadAndValidate(b, f).overrun
  {
    hide Validate;
    hide HeaderSeen;
    FailureRecorded(AfterHeaderRead(b), f, HeaderSeen(b.dev, f));
  }

  // An image that passes the checks and is too long for the memory it is copied
  // over, with a device that lets it through.
  ghost predicate LosesBoot(b: Boot, f: Faults) {
    var c, h := AfterHeaderRead(b), HeaderSeen(b.dev, f);
    && Copyable(c.dev, h) && h.fwSize > COPY_LIMIT
    && b.info.mode != MODE_STAY && NoneRefused(f, c.dev.tick, CallsToCopy(h))
  }

  lemma LosesExactly(b: Boot, f: Faults)
    requires b.entered == None && !b.overrun
    ensures ReadAndValidate(b, f).overrun <==> LosesBoot(b, f)
  {
    hide Validate;
    hide HeaderSeen;
    hide Copyable;
    hide NoneRefused;
    OverrunsExactly(AfterHeaderRead(b), f, HeaderSeen(b.dev, f));
  }

  // A processed exit request ends in the app or locked in the bootloader,
  // exactly unless it loses the bootloader.
  lemma ExitResolves(w: World, f: Faults)
    requires Sound(w) && w.phase == InBootloader && w.s.exitPending
    ensures var r := Next(w, ExitWorkRuns, f);
      && !r.s.exitPending
      && if LosesBoot(w.s.boot, f) then r.phase == Lost
         else r.phase == InApp || (Locked(r) && r.s.boot.info.mode == MODE_STAY)
  {
    hide ReadAndValidate;
    hide AttemptFails;
    hide LosesBoot;
    AttemptKeeps(w.s.boot, f, w.failures);
    LosesExactly(w.s.boot, f);
  }

  // Three failed resets in a row, from any point of any history, and the app
  // stays out of reach until someone asks for it or the power goes.
  lemma ThreeStrikes(w: World, es: seq<Event>, f: Faults)
    requires Sound(w)
    requires var w1 := Run(w, [Reset], f); var w2 := Run(w, [Reset, Reset], f);
      && AttemptFails(BootState(w), f) && AttemptFails(BootState(w1), f) && AttemptFails(BootState(w2), f)
    requires forall e :: e in es ==> !Unlocks(e)
    ensures Locked(Run(w, [Reset, Reset, Reset] + es, f))
  {
    hide Next;
    hide AttemptFails;
    var w1, w2 := Run(w, [Reset], f), Run(w, [Reset, Reset], f);
    RunConcat(w, [Reset], [Reset], f);
    assert [Reset] + [Reset] == [Reset, Reset];
    FailedResetCounts(w, f);
    FailedResetCounts(w1, f);
    LimitLocks(w2, Reset, f);
    RunConcat(w, [Reset, Reset], [Reset], f);
    RunOne(w2, Reset, f);
    assert [Reset, Reset] + [Reset] == [Reset, Reset, Reset];
    RunConcat(w, [Reset, Reset, Reset], es, f);
    LockedForever(Run(w, [Reset, Reset, Reset], f), es, f);
  }

  lemma RunOne(w: World, e: Event, f: Faults)
    requires Sound(w)
    ensures Run(w, [e], f) == Next(w, e, f)
  {
    hide Next;
    StepSound(w, e, f);
    assert [e][1..] == [];
  }

  lemma FailedResetCounts(w: World, f: Faults)
    requires Sound(w) && AttemptFails(BootState(w), f)
    ensures Run(w, [Reset], f).failures == w.failures + 1
  {
    hide AttemptFails;
    hide ReadAndValidate;
    RunOne(w, Reset, f);
    FailedDoesNotEnter(BootState(w), f);
  }

  // ------------------------------------------------------- the app's requests

  // The record the app writes: the retained one, or a fresh one, with the mode
  // and, to enter the bootloader, the reason changed.
  lemma AppRecord(r: Option<BootInfo>, stay: bool)
    ensures var i := AppWrites(r, stay);
      && i.Some? && i.value.version == 1
      && i.value.mode == (if stay then 0xDC else 0)
      && if r.Some? && r.value.version == 1 then
           i.value == r.value.(mode := i.value.mode, resetReason := if stay then 5 else r.value.resetReason)
         else
           && i.value.failCount == 0 && i.value.lastResetReason == 1 && i.value.corruption == 0x8D
           && i.value.lastCrcStatus == 0xAC && i.value.resetReason == if stay then 5 else 0
  {
  }

  // An app that asks for the bootloader gets it with the next reset, whatever
  // image is in flash, and the bootloader knows why it runs; one that asks for
  // itself is entered again exactly when its image is found intact, short enough
  // and readable.
  lemma AppRequestHonoured(w: World, f: Faults)
    requires Sound(w) && w.phase == InApp
    ensures var r := Run(w, [AppSetsMode(true), Reset], f);
      r.phase == InBootloader && Locked(r) && r.s.boot.info.mode == 0xDC && r.s.boot.info.lastResetReason == 5
      && !r.s.exitPending
    ensures var d, h := w.s.boot.dev, HeaderSeen(w.s.boot.dev, f);
      Run(w, [AppSetsMode(false), Reset], f).phase == InApp <==>
        ImageIntact(d, h) && h.fwSize <= 288 * 1024 && NoneRefused(f, d.tick + 1, CallsToCopy(h))
  {
    hide ReadAndValidate;
    hide AttemptFails;
    hide ImageIntact;
    hide HeaderSeen;
    RunTwo(w, AppSetsMode(true), Reset, f);
    RunTwo(w, AppSetsMode(false), Reset, f);
    var s, n := Next(w, AppSetsMode(true), f), Next(w, AppSetsMode(false), f);
    AppRecord(w.s.boot.retained, true);
    AppRecord(w.s.boot.retained, false);
    StepSound(w, AppSetsMode(true), f);
    StepSound(w, AppSetsMode(false), f);
    RecordAtStart(s.s.boot);
    RecordAtStart(n.s.boot);
    AttemptKeeps(BootState(s), f, s.failures);
    StartEnters(BootState(n), f);
    hide NoneRefused;
    StaysReported(BootState(s), f);
  }

  lemma StartEnters(b: Boot, f: Faults)
    requires b.entered == None && !b.overrun
    ensures var h := HeaderSeen(b.dev, f);
      ReadAndValidate(b, f).entered.Some? <==>
        ImageIntact(b.dev, h) && h.fwSize <= 288 * 1024 && b.info.mode != 0xDC
        && NoneRefused(f, b.dev.tick + 1, CallsToCopy(h))
  {
    hide Validate;
    hide HeaderSeen;
    hide NoneRefused;
    IntactIgnoresTick(b.dev, HeaderSeen(b.dev, f));
    EntersExactly(AfterHeaderRead(b), f, HeaderSeen(b.dev, f));
    hide ImageIntact;
  }

  lemma StaysReported(b: Boot, f: Faults)
    requires b.entered == None && !b.overrun
    ensures ReadAndValidate(b, f).info.lastResetReason == b.info.lastResetReason
  {
    hide Validate;
    hide HeaderSeen;
    VerdictRecorded(AfterHeaderRead(b), f, HeaderSeen(b.dev, f));
  }

  lemma RunTwo(w: World, a: Event, b: Event, f: Faults)
    requires Sound(w)
    ensures Sound(Next(w, a, f)) && Run(w, [a, b], f) == Next(Next(w, a, f), b, f)
  {
    hide Next;
    StepSound(w, a, f);
    StepSound(Next(w, a, f), b, f);
    assert [a, b][1..] == [b] && [b][1..] == [];
    assert Run(Next(w, a, f), [b], f) == Run(Next(Next(w, a, f), b, f), [], f);
  }

  // ------------------------------------------------------ histories that begin

  // Before the first reset nothing is known but that retention, if it checks
  // out, holds a count of one byte.
  lemma PowerUpSound(dev: Dev, info: BootInfo, retained: Option<BootInfo>, s: Session)
    requires s.boot == Boot(dev, info, retained, None, false)
    requires RetentionUsable(retained) ==> retained.value.failCount <= 255
    ensures Sound(World(s, Off, if RetentionUsable(retained) then retained.value.failCount else 0))
  {
  }

  // -------------------------------------------------------- the uncounted loss

  function Resets(n: nat): seq<Event> {
    seq(n, i => Reset)
  }

  // An accepted image too long for the memory it is copied over.
  predicate TooLong(d: Dev) {
    && |d.flash| == FLASH_SIZE
    && var h := Decode(d.flash[HDR_ADDR..HDR_ADDR + HEADER_SIZE]);
       Copyable(d, h) && h.fwSize > COPY_LIMIT
  }

  lemma CopyableIgnoresTick(d: Dev, h: Header)
    ensures Copyable(d.(tick := d.tick + 1), h) <==> Copyable(d, h)
  {
    hide ImageIntact;
    IntactIgnoresTick(d, h);
  }

  lemma LosesTooLong(b: Boot, f: Faults)
    requires b.entered == None && !b.overrun && TooLong(b.dev) && b.info.mode != MODE_STAY
    requires forall t :: f(t) >= 0
    ensures var e := ReadAndValidate(b, f);
      && e.overrun && !AttemptFails(b, f) && e.entered == None
      && e.dev.flash == b.dev.flash && e.retained == b.retained
  {
    hide Decode;
    hide Validate;
    hide Copyable;
    var c, h := AfterHeaderRead(b), Decode(b.dev.flash[HDR_ADDR..HDR_ADDR + HEADER_SIZE]);
    CopyableIgnoresTick(b.dev, h);
    OverrunsExactly(c, f, h);
    OverrunMeansLost(c, f, h);
  }

  lemma ResetLoses(w: World, f: Faults)
    requires Sound(w) && TooLong(w.s.boot.dev) && (forall t :: f(t) >= 0)
    requires RetentionUsable(w.s.boot.retained) && w.s.boot.retained.value.mode != MODE_STAY
    ensures var r := Next(w, Reset, f);
      && r.phase == Lost && r.failures == w.failures && r.s.boot.dev.flash == w.s.boot.dev.flash
      && RetentionUsable(r.s.boot.retained) && r.s.boot.retained.value.mode == w.s.boot.retained.value.mode
      && r.s.boot.retained.value.failCount == w.s.boot.retained.value.failCount
  {
    hide TooLong;
    hide ReadAndValidate;
    hide AttemptFails;
    assert TooLong(BootState(w).dev);
    LosesTooLong(BootState(w), f);
  }

  // So with an accepted image between 288 KiB and what the flash holds, every
  // reset loses the bootloader and none is counted: however many there are, the
  // count stays, and the limit that would keep the EC for repair never bites.
  lemma {:induction false} LossesUncounted(w: World, n: nat, f: Faults)
    requires Sound(w) && TooLong(w.s.boot.dev) && (forall t :: f(t) >= 0)
    requires RetentionUsable(w.s.boot.retained) && w.s.boot.retained.value.mode != MODE_STAY
    ensures var r := Run(w, Resets(n), f);
      && (n > 0 ==> r.phase == Lost) && !Locked(r) && r.failures == w.failures
      && RetentionUsable(r.s.boot.retained) && r.s.boot.retained.value.mode == w.s.boot.retained.value.mode
      && r.s.boot.retained.value.failCount == w.s.boot.retained.value.failCount
    decreases n
  {
    hide Next;
    hide TooLong;
    if n > 0 {
      ResetLoses(w, f);
      StepSound(w, Reset, f);
      assert Resets(n)[1..] == Resets(n - 1);
      SameFlash(w.s.boot.dev, Next(w, Reset, f).s.boot.dev);
      LossesUncounted(Next(w, Reset, f), n - 1, f);
    }
  }

  lemma SameFlash(d: Dev, e: Dev)
    requires TooLong(d) && e.flash == d.flash
    ensures TooLong(e)
  {
    hide Decode;
    hide Digest;
  }

  // Such a flash exists: 300 KiB without a digest.
  lemma TooLongImage() returns (d: Dev)
    ensures TooLong(d)
  {
    hide Decode;
    var none := Version(0, 0, 0);
    var head := BuildHeader(300 * 1024, RAM_ADDR, none, none, 0, VALIDATION_NONE, 0).value;
    HeaderRoundTrip(300 * 1024, RAM_ADDR, none, none, 0, VALIDATION_NONE, 0);
    var blank := Erased(FLASH_SIZE);
    d := Dev(blank[..HDR_ADDR] + head + blank[HDR_ADDR + HEADER_SIZE..], map[], 0);
    assert d.flash[HDR_ADDR..HDR_ADDR + HEADER_SIZE] == head;
  }
}

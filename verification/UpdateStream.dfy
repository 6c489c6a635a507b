/**
 Streams of update commands: what flash holds after any sequence of stage and
 commit commands, and the whole path from the packer to the running app.
 */
module UpdateStream {
  import opened Crc32
  import opened Device
  import opened FwUpdate
  import opened Image
  import opened Storage

  // The three-byte address of a command, low byte first.
  lemma AddressBytes(cmd: seq<byte>)
    requires |cmd| >= 7
    ensures Address(cmd) == At(cmd, 4) + 0x100 * At(cmd, 5) + 0x1_0000 * At(cmd, 6)
  {
    hide Val;
    var b := cmd[4..7];
    assert b[1..][1..] == [b[2]];
    assert Le(b[1..]) == Val(b[1]) + 256 * Le(b[1..][1..]);
    assert Le([b[2]]) == Val(b[2]) + 256 * Le([]);
  }

  // What a command that restarts the EC reports: it never returns.
  const RESTARTED: int := 1

  function Dispatch(s: Session, f: Faults, cmd: seq<byte>): (r: (Session, int))
    requires BufferFits(s)
  {
    if cmd == [] then (s, EINVAL)
    else if At(cmd, 0) == OP_STAGE then Stage(s, cmd)
    else if At(cmd, 0) == OP_COMMIT then Commit(s, f, cmd)
    else if At(cmd, 0) == OP_ERASE_PARTITION then ErasePartition(s, f, cmd)
    else if At(cmd, 0) == OP_ERASE_REGION then EraseRegion(s, f, cmd)
    else if At(cmd, 0) == OP_SPI then
      var (e, outcome) := Spi(s, f, cmd);
      (e, if outcome.Restarts? then RESTARTED else outcome.ret)
    else (s, EINVAL)
  }

  lemma DispatchFits(s: Session, f: Faults, cmd: seq<byte>)
    requires BufferFits(s)
    ensures BufferFits(Dispatch(s, f, cmd).0)
  {
    hide Requested;
    hide RunCrc;
    hide Val;
    hide Le;
  }

  // Nothing after a restart reaches this session.
  function Play(s: Session, f: Faults, cmds: seq<seq<byte>>): (r: Session)
    requires BufferFits(s)
    ensures BufferFits(r)
    decreases |cmds|
  {
    if cmds == [] then s
    else
      DispatchFits(s, f, cmds[0]);
      var (e, ret) := Dispatch(s, f, cmds[0]);
      if ret == RESTARTED then e else Play(e, f, cmds[1..])
  }

  // ------------------------------------------------------- streams on AUTO path

  predicate AutoCommand(cmd: seq<byte>) {
    cmd != [] && (At(cmd, 0) == OP_STAGE || (At(cmd, 0) == OP_COMMIT && (|cmd| >= 7 ==> At(cmd, 2) != PATH_INT)))
  }

  // Every stage command and every commit but a complete one for path 0x4F.
  lemma AutoCommands(cmd: seq<byte>)
    requires cmd != []
    ensures AutoCommand(cmd) <==>
              || At(cmd, 0) == 0xA0
              || (At(cmd, 0) == 0xAA && (|cmd| < 7 || At(cmd, 2) != 0x4F))
  {
    hide Val;
  }

  // What one command adds to the committed stream.
  function Piece(s: Session, f: Faults, cmd: seq<byte>): seq<byte>
    requires BufferFits(s)
  {
    if cmd != [] && At(cmd, 0) == OP_COMMIT && |cmd| >= 7 && Commit(s, f, cmd).1 == 0
    then s.buffer[..CommitSize(s, cmd)] else []
  }

  function Committed(s: Session, f: Faults, cmds: seq<seq<byte>>): seq<byte>
    requires BufferFits(s)
    decreases |cmds|
  {
    if cmds == [] then []
    else
      DispatchFits(s, f, cmds[0]);
      Piece(s, f, cmds[0]) + Committed(Dispatch(s, f, cmds[0]).0, f, cmds[1..])
  }

  // One AUTO-path command programs its piece at the cursor, moves the cursor
  // past it, and leaves everything as it was when it fails.
  lemma AutoStep(s: Session, f: Faults, cmd: seq<byte>)
    requires BufferFits(s) && AutoCommand(cmd)
    requires s.cursor <= |s.boot.dev.flash| < U32_LIMIT
    ensures var e := Dispatch(s, f, cmd).0; var p := Piece(s, f, cmd);
      && s.cursor + |p| <= |s.boot.dev.flash|
      && e.cursor == s.cursor + |p|
      && e.boot.dev.flash == Program(s.boot.dev.flash, s.cursor, p)
      && Dispatch(s, f, cmd).1 != RESTARTED
  {
    hide Spi;
    hide Val;
    hide Le;
    hide Crc;
    hide Program;
    hide StoreRam;
    hide ScanOf;
    ProgramNothing(s.boot.dev.flash, s.cursor);
  }

  lemma ProgramNothing(flash: seq<byte>, addr: nat)
    requires addr <= |flash|
    ensures Program(flash, addr, []) == flash
  {
  }

  // `p` laid over `n` erased bytes.
  function Fill(p: seq<byte>, n: nat): (r: seq<byte>)
    ensures |r| == n
  {
    if |p| >= n then p[..n] else p + Erased(n - |p|)
  }

  ghost predicate ErasedIn(flash: seq<byte>, lo: nat, hi: nat) {
    hi <= |flash| && forall i :: lo <= i < hi ==> flash[i] == 0xFF
  }

  // For every sequence of stage and AUTO-path commit commands, malformed ones
  // and refused writes included: the cursor has advanced by exactly the bytes
  // programmed, nothing below its start changed, and what was erased now holds
  // the committed bytes in order, followed by erased flash.
  lemma {:induction false} AutoStreaming(s: Session, f: Faults, cmds: seq<seq<byte>>, lim: nat)
    requires BufferFits(s) && forall c :: c in cmds ==> AutoCommand(c)
    requires s.cursor <= lim <= |s.boot.dev.flash| < U32_LIMIT
    requires ErasedIn(s.boot.dev.flash, s.cursor, lim)
    ensures var e := Play(s, f, cmds); var p := Committed(s, f, cmds); var fl := e.boot.dev.flash;
      && e.cursor == s.cursor + |p| <= |fl| == |s.boot.dev.flash|
      && fl[..s.cursor] == s.boot.dev.flash[..s.cursor]
      && fl[s.cursor..lim] == Fill(p, lim - s.cursor)
    decreases |cmds|
  {
    hide Dispatch;
    hide Piece;
    hide AutoCommand;
    hide Program;
    if cmds == [] {
      assert s.boot.dev.flash[s.cursor..lim] == Erased(lim - s.cursor);
    } else {
      AutoStep(s, f, cmds[0]);
      DispatchFits(s, f, cmds[0]);
      var s1, q := Dispatch(s, f, cmds[0]).0, Piece(s, f, cmds[0]);
      var rest := Committed(s1, f, cmds[1..]);
      ProgramFrame(s.boot.dev.flash, s.cursor, q, lim);
      if s1.cursor <= lim {
        AutoStreaming(s1, f, cmds[1..], lim);
        FillPrepend(q, rest, lim - s.cursor);
        FlashSplit(s, s1, Play(s1, f, cmds[1..]), q, rest, lim);
      } else {
        AutoStreaming(s1, f, cmds[1..], s1.cursor);
        FlashOverrun(s, s1, Play(s1, f, cmds[1..]), q, rest, lim);
      }
    }
  }

  lemma ProgramFrame(flash: seq<byte>, at: nat, q: seq<byte>, lim: nat)
    requires at + |q| <= |flash| && at <= lim && ErasedIn(flash, at, lim)
    ensures var g := Program(flash, at, q);
      && g[..at] == flash[..at]
      && (at + |q| <= lim ==> g[at..at + |q|] == q && ErasedIn(g, at + |q|, lim))
      && (at + |q| > lim ==> g[at..lim] == q[..lim - at])
  {
    var g := Program(flash, at, q);
    forall i | 0 <= i < |flash|
      ensures !(at <= i < at + |q|) ==> g[i] == flash[i]
      ensures at <= i < at + |q| && flash[i] == 0xFF ==> g[i] == q[i - at]
    {
      ProgramAt(flash, at, q, i);
    }
    assert g[..at] == flash[..at];
  }

  lemma FillPrepend(q: seq<byte>, rest: seq<byte>, n: nat)
    requires |q| <= n
    ensures Fill(q + rest, n) == q + Fill(rest, n - |q|)
  {
  }

  lemma FlashSplit(s: Session, s1: Session, e: Session, q: seq<byte>, rest: seq<byte>, lim: nat)
    requires s1.cursor == s.cursor + |q| <= lim <= |e.boot.dev.flash| == |s1.boot.dev.flash| == |s.boot.dev.flash|
    requires s1.boot.dev.flash[..s.cursor] == s.boot.dev.flash[..s.cursor]
    requires s1.boot.dev.flash[s.cursor..s1.cursor] == q
    requires e.boot.dev.flash[..s1.cursor] == s1.boot.dev.flash[..s1.cursor]
    requires e.boot.dev.flash[s1.cursor..lim] == Fill(rest, lim - s1.cursor)
    ensures e.boot.dev.flash[..s.cursor] == s.boot.dev.flash[..s.cursor]
    ensures e.boot.dev.flash[s.cursor..lim] == q + Fill(rest, lim - s1.cursor)
  {
    var fl, g := e.boot.dev.flash, s1.boot.dev.flash;
    assert fl[..s.cursor] == fl[..s1.cursor][..s.cursor] == g[..s.cursor];
    assert fl[s.cursor..s1.cursor] == fl[..s1.cursor][s.cursor..] == g[..s1.cursor][s.cursor..] == q;
    assert fl[s.cursor..lim] == fl[s.cursor..s1.cursor] + fl[s1.cursor..lim];
  }

  lemma FlashOverrun(s: Session, s1: Session, e: Session, q: seq<byte>, rest: seq<byte>, lim: nat)
    requires s.cursor <= lim < s1.cursor == s.cursor + |q| <= |e.boot.dev.flash|
    requires |e.boot.dev.flash| == |s1.boot.dev.flash| == |s.boot.dev.flash|
    requires s1.boot.dev.flash[..s.cursor] == s.boot.dev.flash[..s.cursor]
    requires s1.boot.dev.flash[s.cursor..lim] == q[..lim - s.cursor]
    requires e.boot.dev.flash[..s1.cursor] == s1.boot.dev.flash[..s1.cursor]
    ensures e.boot.dev.flash[..s.cursor] == s.boot.dev.flash[..s.cursor]
    ensures e.boot.dev.flash[s.cursor..lim] == Fill(q + rest, lim - s.cursor)
  {
    var fl, g := e.boot.dev.flash, s1.boot.dev.flash;
    assert fl[..s.cursor] == fl[..s1.cursor][..s.cursor] == g[..s.cursor];
    assert fl[s.cursor..lim] == fl[..s1.cursor][s.cursor..lim] == g[..s1.cursor][s.cursor..lim] == g[s.cursor..lim];
    assert Fill(q + rest, lim - s.cursor) == (q + rest)[..lim - s.cursor] == q[..lim - s.cursor];
  }

  predicate QuickErase(cmd: seq<byte>) {
    |cmd| >= 3 && At(cmd, 0) == OP_ERASE_PARTITION && At(cmd, 2) == QUICK_ERASE_MAIN
  }

  lemma QuickEraseStep(s: Session, f: Faults, cmd: seq<byte>)
    requires BufferFits(s) && QuickErase(cmd)
    requires HDR_ADDR + MAIN_SIZE <= |s.boot.dev.flash|
    ensures var (e, ret) := Dispatch(s, f, cmd);
      && e.cursor == HDR_ADDR && e.buffer == s.buffer && e.len == s.len
      && |e.boot.dev.flash| == |s.boot.dev.flash|
      && e.boot.info.mode == s.boot.info.mode
      && e.boot.entered == s.boot.entered && e.boot.overrun == s.boot.overrun
      && e.boot.dev.tick == s.boot.dev.tick + 1
      && (ret == 0 ==> ErasedIn(e.boot.dev.flash, HDR_ADDR, HDR_ADDR + MAIN_SIZE))
      && (ret == 0 <==> f(s.boot.dev.tick) >= 0)
  {
    hide Spi;
    hide Val;
    hide Crc;
    hide StoreRam;
    hide ScanOf;
    hide ClearBackupIntact;
  }

  // A sector erase erases exactly the addressed sectors, or nothing at all.
  lemma RegionEraseStep(s: Session, f: Faults, cmd: seq<byte>)
    requires BufferFits(s) && |cmd| >= 7 && At(cmd, 0) == OP_ERASE_REGION
    ensures var (e, ret) := Dispatch(s, f, cmd);
      var (old', new', lo) := (s.boot.dev.flash, e.boot.dev.flash, Address(cmd) + HOST_OFFSET);
      var hi := lo + SECTOR * At(cmd, 3);
      && |new'| == |old'| && e.cursor == s.cursor && e.buffer == s.buffer && e.len == s.len
      && (ret == 0 <==> At(cmd, 3) > 0 && f(s.boot.dev.tick) >= 0 && hi <= |old'|)
      && (ret == 0 ==> ErasedIn(new', lo, hi) && new'[..lo] == old'[..lo] && new'[hi..] == old'[hi..])
      && (ret != 0 ==> new' == old')
  {
    hide Spi;
    hide Val;
    hide Le;
    hide Crc;
    hide StoreRam;
    hide ScanOf;
  }

  // After a quick erase that succeeds, the main partition is the committed
  // stream over erased flash.
  lemma EraseThenStream(s: Session, f: Faults, erase: seq<byte>, cmds: seq<seq<byte>>)
    requires BufferFits(s) && QuickErase(erase) && Dispatch(s, f, erase).1 == 0
    requires forall c :: c in cmds ==> AutoCommand(c)
    requires HDR_ADDR + MAIN_SIZE <= |s.boot.dev.flash| < U32_LIMIT
    ensures BufferFits(Dispatch(s, f, erase).0)
    ensures var s1 := Dispatch(s, f, erase).0; var p := Committed(s1, f, cmds); var e := Play(s1, f, cmds);
      && e.cursor == HDR_ADDR + |p|
      && |e.boot.dev.flash| == |s.boot.dev.flash|
      && e.boot.dev.flash[HDR_ADDR..HDR_ADDR + MAIN_SIZE] == Fill(p, MAIN_SIZE)
  {
    hide Committed;
    hide Play;
    QuickEraseStep(s, f, erase);
    DispatchFits(s, f, erase);
    AutoStreaming(Dispatch(s, f, erase).0, f, cmds, HDR_ADDR + MAIN_SIZE);
  }
}

/**
 The one chunk buffer of `driver/storage_bootloader.c`.  A checksum-mode
 validation measures in its own thread while the flash worker may be serving
 CRC requests.  Both loops run over the image and go through that buffer.
 */
module SharedBuffer {
  import opened BootSafety
  import opened Bytes
  import opened Crc32
  import opened Device
  import opened Image
  import opened Storage

  // A chunk loop: `done` chunks are in its digest; `full` between the read into
  // the buffer and its use.
  datatype Loop = Loop(done: nat, full: bool)

  // Where the loops are, and the chunk the buffer was last filled with.
  datatype Ctl = Ctl(mine: Loop, other: Loop, last: nat)

  // The buffer and the bytes my loop has digested.
  datatype State = State(ctl: Ctl, buf: seq<byte>, seen: seq<byte>)

  // The other loop may be started again by another request.
  datatype Step = FillMine | UseMine | FillOther | UseOther | StartOther

  predicate CanFill(l: Loop, size: nat) {
    !l.full && l.done < Chunks(size)
  }

  function Used(l: Loop): Loop {
    Loop(l.done + 1, false)
  }

  predicate Sane(c: Ctl, size: nat) {
    && c.mine.done <= Chunks(size) && c.other.done <= Chunks(size)
    && (c.mine.full ==> c.mine.done < Chunks(size)) && (c.other.full ==> c.other.done < Chunks(size))
    && (c.mine.full || c.other.full ==> c.last < Chunks(size))
  }

  function NextCtl(c: Ctl, size: nat, step: Step): (e: Ctl)
    requires Sane(c, size)
    ensures Sane(e, size)
  {
    match step
    case FillMine => if CanFill(c.mine, size) then c.(mine := c.mine.(full := true), last := c.mine.done) else c
    case FillOther => if CanFill(c.other, size) then c.(other := c.other.(full := true), last := c.other.done) else c
    case UseMine => if c.mine.full then c.(mine := Used(c.mine)) else c
    case UseOther => if c.other.full then c.(other := Used(c.other)) else c
    case StartOther => if c.other.done == Chunks(size) then c.(other := Loop(0, false)) else c
  }

  function Chunk(flash: seq<byte>, size: nat, k: nat): (r: seq<byte>)
    requires IMG_ADDR + size <= |flash| && k < Chunks(size)
    ensures |r| == ChunkLen(size, k) <= CHUNK
  {
    assert Upto(size, k + 1) <= size;
    flash[IMG_ADDR + CHUNK * k..IMG_ADDR + CHUNK * k + ChunkLen(size, k)]
  }

  function Region(flash: seq<byte>, size: nat): seq<byte>
    requires IMG_ADDR + size <= |flash|
  {
    flash[IMG_ADDR..IMG_ADDR + size]
  }

  predicate Valid(s: State, flash: seq<byte>, size: nat) {
    |s.buf| == CHUNK && Sane(s.ctl, size) && IMG_ADDR + size <= |flash|
  }

  function Next(s: State, flash: seq<byte>, size: nat, step: Step): (e: State)
    requires Valid(s, flash, size)
    ensures Valid(e, flash, size)
  {
    var c := NextCtl(s.ctl, size, step);
    if (step.FillMine? && CanFill(s.ctl.mine, size)) || (step.FillOther? && CanFill(s.ctl.other, size)) then
      var chunk := Chunk(flash, size, c.last);
      State(c, chunk + s.buf[|chunk|..], s.seen)
    else if step.UseMine? && s.ctl.mine.full then
      State(c, s.buf, s.seen + s.buf[..ChunkLen(size, s.ctl.mine.done)])
    else State(c, s.buf, s.seen)
  }

  function Run(s: State, flash: seq<byte>, size: nat, steps: seq<Step>): (e: State)
    requires Valid(s, flash, size)
    ensures Valid(e, flash, size)
    decreases |steps|
  {
    if steps == [] then s else Run(Next(s, flash, size, steps[0]), flash, size, steps[1..])
  }

  function RunCtl(c: Ctl, size: nat, steps: seq<Step>): (e: Ctl)
    requires Sane(c, size)
    ensures Sane(e, size)
    decreases |steps|
  {
    if steps == [] then c else RunCtl(NextCtl(c, size, steps[0]), size, steps[1..])
  }

  const START: Ctl := Ctl(Loop(0, false), Loop(0, false), 0)

  // Both loops at their start, whatever the buffer holds.
  predicate Starting(s: State) {
    s.ctl == START && |s.buf| == CHUNK && s.seen == []
  }

  // My loop uses chunk `k` after the buffer was refilled with another one.
  predicate MixedUp(c: Ctl, size: nat, steps: seq<Step>, k: nat)
    requires Sane(c, size)
    decreases |steps|
  {
    steps != [] &&
    if steps[0].UseMine? && c.mine.full && c.mine.done == k then c.last != k
    else MixedUp(NextCtl(c, size, steps[0]), size, steps[1..], k)
  }

  // ------------------------------------------------------------ sufficiency

  // The buffer begins with the chunk it was last filled with, and my loop has
  // digested its region as far as it got.
  predicate Faithful(s: State, flash: seq<byte>, size: nat)
    requires Valid(s, flash, size)
  {
    && (s.ctl.mine.full || s.ctl.other.full ==>
          s.buf[..ChunkLen(size, s.ctl.last)] == Chunk(flash, size, s.ctl.last))
    && s.seen == Region(flash, size)[..Upto(size, s.ctl.mine.done)]
  }

  lemma SliceOfSlice(s: seq<byte>, a: nat, m: nat, lo: nat, n: nat)
    requires a + m <= |s| && lo + n <= m
    ensures s[a..a + m][lo..lo + n] == s[a + lo..a + lo + n]
  {
    var x, y := s[a..a + m][lo..lo + n], s[a + lo..a + lo + n];
    forall i | 0 <= i < n ensures x[i] == y[i] {
      assert x[i] == s[a..a + m][lo + i] == s[a + (lo + i)];
    }
  }

  lemma TwoSlices(r: seq<byte>, lo: nat, n: nat)
    requires lo + n <= |r|
    ensures r[..lo] + r[lo..lo + n] == r[..lo + n]
  {
  }

  lemma UseExtends(flash: seq<byte>, size: nat, k: nat)
    requires IMG_ADDR + size <= |flash| && k < Chunks(size)
    ensures Region(flash, size)[..Upto(size, k)] + Chunk(flash, size, k) == Region(flash, size)[..Upto(size, k + 1)]
  {
    var lo, n := CHUNK * k, ChunkLen(size, k);
    assert Upto(size, k) == lo && Upto(size, k + 1) == lo + n <= size;
    SliceOfSlice(flash, IMG_ADDR, size, lo, n);
    TwoSlices(Region(flash, size), lo, n);
  }

  lemma NextFaithful(s: State, flash: seq<byte>, size: nat, step: Step)
    requires Valid(s, flash, size) && Faithful(s, flash, size)
    requires step.UseMine? && s.ctl.mine.full ==> s.ctl.last == s.ctl.mine.done
    ensures Faithful(Next(s, flash, size, step), flash, size)
  {
    if step.UseMine? && s.ctl.mine.full {
      UseExtends(flash, size, s.ctl.mine.done);
    }
  }

  lemma {:induction false} CleanDigests(s: State, flash: seq<byte>, size: nat, steps: seq<Step>)
    requires Valid(s, flash, size) && Faithful(s, flash, size)
    requires forall k :: s.ctl.mine.done <= k < Chunks(size) ==> !MixedUp(s.ctl, size, steps, k)
    ensures Faithful(Run(s, flash, size, steps), flash, size)
    ensures Run(s, flash, size, steps).ctl == RunCtl(s.ctl, size, steps)
    decreases |steps|
  {
    hide Faithful;
    if steps != [] {
      var e := Next(s, flash, size, steps[0]);
      if s.ctl.mine.done < Chunks(size) {
        assert !MixedUp(s.ctl, size, steps, s.ctl.mine.done);
      }
      NextFaithful(s, flash, size, steps[0]);
      forall k | e.ctl.mine.done <= k < Chunks(size) ensures !MixedUp(e.ctl, size, steps[1..], k) {
        assert !MixedUp(s.ctl, size, steps, k);
      }
      CleanDigests(e, flash, size, steps[1..]);
    }
  }

  // -------------------------------------------------------------- necessity

  // Every byte of the flash is zero but the first of one chunk.
  function Marked(n: nat, k: nat): (flash: seq<byte>)
    requires IMG_ADDR + CHUNK * k < n
    ensures |flash| == n && forall i :: 0 <= i < n ==> flash[i] == if i == IMG_ADDR + CHUNK * k then 1 else 0
  {
    seq(n, i => if i == IMG_ADDR + CHUNK * k then 1 else 0)
  }

  // My loop has digested as many bytes as its place in the region says.
  predicate Placed(s: State, flash: seq<byte>, size: nat)
    requires Valid(s, flash, size)
  {
    && |s.seen| == Upto(size, s.ctl.mine.done)
    && (s.ctl.mine.full || s.ctl.other.full ==>
          s.buf[..ChunkLen(size, s.ctl.last)] == Chunk(flash, size, s.ctl.last))
  }

  lemma NextPlaced(s: State, flash: seq<byte>, size: nat, step: Step)
    requires Valid(s, flash, size) && Placed(s, flash, size)
    ensures Placed(Next(s, flash, size, step), flash, size)
    ensures s.seen <= Next(s, flash, size, step).seen
  {
    if step.UseMine? && s.ctl.mine.full {
      assert Upto(size, s.ctl.mine.done + 1) == Upto(size, s.ctl.mine.done) + ChunkLen(size, s.ctl.mine.done);
    }
  }

  lemma {:induction false} SeenGrows(s: State, flash: seq<byte>, size: nat, steps: seq<Step>)
    requires Valid(s, flash, size) && Placed(s, flash, size)
    ensures s.seen <= Run(s, flash, size, steps).seen
    decreases |steps|
  {
    hide Next;
    hide Placed;
    if steps != [] {
      NextPlaced(s, flash, size, steps[0]);
      SeenGrows(Next(s, flash, size, steps[0]), flash, size, steps[1..]);
    }
  }

  // A mixed-up chunk leaves another chunk's first byte in its place.
  lemma {:induction false} MixedUpShows(s: State, flash: seq<byte>, size: nat, steps: seq<Step>, k: nat)
    requires Valid(s, flash, size) && Placed(s, flash, size) && k < Chunks(size)
    requires MixedUp(s.ctl, size, steps, k)
    ensures CHUNK * k < |Run(s, flash, size, steps).seen|
    ensures exists j :: 0 <= j < Chunks(size) && j != k && IMG_ADDR + CHUNK * j < |flash|
                        && Run(s, flash, size, steps).seen[CHUNK * k] == flash[IMG_ADDR + CHUNK * j]
    decreases |steps|
  {
    var e := Next(s, flash, size, steps[0]);
    NextPlaced(s, flash, size, steps[0]);
    if steps[0].UseMine? && s.ctl.mine.full && s.ctl.mine.done == k {
      var j := s.ctl.last;
      SeenGrows(e, flash, size, steps[1..]);
      assert CHUNK * j < size && IMG_ADDR + CHUNK * j < |flash|;
      assert s.buf[0] == s.buf[..ChunkLen(size, j)][0] == Chunk(flash, size, j)[0] == flash[IMG_ADDR + CHUNK * j];
      assert |s.seen| == CHUNK * k;
      assert e.seen[CHUNK * k] == s.buf[0];
    } else {
      MixedUpShows(e, flash, size, steps[1..], k);
    }
  }

  // For both loops from their start and every interleaving in which mine
  // finishes: it digests the image, whatever the image is, if and only if it
  // uses no chunk after the buffer was refilled with a different one.
  lemma DigestsExactly(s: State, size: nat, n: nat, steps: seq<Step>)
    requires Starting(s) && IMG_ADDR + size <= n && RunCtl(START, size, steps).mine.done == Chunks(size)
    ensures (forall flash: seq<byte> :: |flash| == n ==> Run(s, flash, size, steps).seen == Region(flash, size))
            <==> (forall k :: 0 <= k < Chunks(size) ==> !MixedUp(START, size, steps, k))
  {
    hide RunCtl;
    hide Run;
    hide MixedUp;
    if forall k :: 0 <= k < Chunks(size) ==> !MixedUp(START, size, steps, k) {
      forall flash: seq<byte> | |flash| == n ensures Run(s, flash, size, steps).seen == Region(flash, size) {
        CleanSuffices(s, flash, size, steps);
      }
    } else {
      var k :| 0 <= k < Chunks(size) && MixedUp(START, size, steps, k);
      MixedUpFails(s, size, n, steps, k);
    }
  }

  lemma CleanSuffices(s: State, flash: seq<byte>, size: nat, steps: seq<Step>)
    requires Starting(s) && IMG_ADDR + size <= |flash| && RunCtl(START, size, steps).mine.done == Chunks(size)
    requires forall k :: 0 <= k < Chunks(size) ==> !MixedUp(START, size, steps, k)
    ensures Run(s, flash, size, steps).seen == Region(flash, size)
  {
    hide RunCtl;
    assert Upto(size, 0) == 0;
    CleanDigests(s, flash, size, steps);
    FaithfulSeen(Run(s, flash, size, steps), flash, size);
  }

  lemma FaithfulSeen(s: State, flash: seq<byte>, size: nat)
    requires Valid(s, flash, size) && Faithful(s, flash, size) && s.ctl.mine.done == Chunks(size)
    ensures s.seen == Region(flash, size)
  {
    assert Upto(size, Chunks(size)) == size;
  }

  lemma MixedUpFails(s: State, size: nat, n: nat, steps: seq<Step>, k: nat)
    requires Starting(s) && IMG_ADDR + size <= n && k < Chunks(size) && MixedUp(START, size, steps, k)
    ensures CHUNK * k < size
    ensures Run(s, Marked(n, k), size, steps).seen != Region(Marked(n, k), size)
  {
    hide Run;
    var flash := Marked(n, k);
    assert Upto(size, 0) == 0;
    MixedUpShows(s, flash, size, steps, k);
    assert Region(flash, size)[CHUNK * k] == 1;
  }

  // Only the image region is read, so writes elsewhere change nothing.
  lemma {:induction false} ElsewhereIrrelevant(s: State, flash: seq<byte>, other: seq<byte>, size: nat,
                                               steps: seq<Step>)
    requires Valid(s, flash, size) && Valid(s, other, size) && Region(flash, size) == Region(other, size)
    ensures Run(s, flash, size, steps) == Run(s, other, size, steps)
    decreases |steps|
  {
    if steps != [] {
      SameStep(s, flash, other, size, steps[0]);
      ElsewhereIrrelevant(Next(s, flash, size, steps[0]), flash, other, size, steps[1..]);
    }
  }

  lemma SameStep(s: State, flash: seq<byte>, other: seq<byte>, size: nat, step: Step)
    requires Valid(s, flash, size) && Valid(s, other, size) && Region(flash, size) == Region(other, size)
    ensures Next(s, flash, size, step) == Next(s, other, size, step)
  {
    var k := NextCtl(s.ctl, size, step).last;
    if k < Chunks(size) {
      var lo, n := CHUNK * k, ChunkLen(size, k);
      assert lo + n == Upto(size, k + 1) <= size;
      SliceOfSlice(flash, IMG_ADDR, size, lo, n);
      SliceOfSlice(other, IMG_ADDR, size, lo, n);
    }
  }

  // ------------------------------------------------------------- alone, or not

  function Alone(n: nat): seq<Step>
    decreases n
  {
    if n == 0 then [] else [FillMine, UseMine] + Alone(n - 1)
  }

  lemma RunTwo(s: State, flash: seq<byte>, size: nat, a: Step, b: Step, rest: seq<Step>)
    requires Valid(s, flash, size)
    ensures Run(s, flash, size, [a, b] + rest)
         == Run(Next(Next(s, flash, size, a), flash, size, b), flash, size, rest)
  {
    hide Next;
    assert ([a, b] + rest)[1..] == [b] + rest && ([b] + rest)[1..] == rest;
  }

  lemma {:induction false} AloneRuns(s: State, flash: seq<byte>, size: nat, n: nat)
    requires Valid(s, flash, size) && Faithful(s, flash, size) && !s.ctl.mine.full
    requires s.ctl.mine.done + n == Chunks(size)
    ensures Run(s, flash, size, Alone(n)).seen == Region(flash, size)
    decreases n
  {
    hide Faithful;
    if n > 0 {
      RunTwo(s, flash, size, FillMine, UseMine, Alone(n - 1));
      var a := Next(s, flash, size, FillMine);
      NextFaithful(s, flash, size, FillMine);
      NextFaithful(a, flash, size, UseMine);
      AloneRuns(Next(a, flash, size, UseMine), flash, size, n - 1);
    } else {
      FaithfulSeen(s, flash, size);
    }
  }

  // Undisturbed, the loop is the driver's: it digests what an unrefused pass
  // over the image yields.
  lemma AloneIsScan(s: State, d: Dev, f: Faults, size: nat)
    requires Starting(s) && IMG_ADDR + size <= |d.flash| && NoneRefused(f, d.tick, Chunks(size))
    ensures Run(s, d.flash, size, Alone(Chunks(size))).seen == ScanOf(d, f, IMG_ADDR, size).bytes
  {
    AloneRuns(s, d.flash, size, Chunks(size));
    ScanUnrefused(d, f, IMG_ADDR, size);
  }

  // My loop has used the first of two chunks and read the second when the other
  // one reads its first.
  const TANGLED: seq<Step> := [FillMine, UseMine, FillMine, FillOther, UseMine]

  lemma TangledSees(s: State, flash: seq<byte>)
    requires Starting(s) && IMG_ADDR + 2 * CHUNK <= |flash|
    ensures var e := Run(s, flash, 2 * CHUNK, TANGLED); var first := Chunk(flash, 2 * CHUNK, 0);
      e.ctl.mine.done == Chunks(2 * CHUNK) && e.seen == first + first
  {
    var size, first := 2 * CHUNK, Chunk(flash, 2 * CHUNK, 0);
    var rest := [FillMine, FillOther, UseMine];
    assert TANGLED == [FillMine, UseMine] + rest && rest == [FillMine, FillOther] + [UseMine];
    RunTwo(s, flash, size, FillMine, UseMine, rest);
    var b := Next(Next(s, flash, size, FillMine), flash, size, UseMine);
    assert b.seen == first;
    RunTwo(b, flash, size, FillMine, FillOther, [UseMine]);
    var d := Next(Next(b, flash, size, FillMine), flash, size, FillOther);
    assert d.buf == first;
    assert [UseMine][1..] == [];
    assert Run(d, flash, size, [UseMine]) == Next(d, flash, size, UseMine);
  }

  // So a two-chunk image whose header has twice the first chunk's sum passes,
  // wrong as that is whenever the second chunk sums to something else.
  lemma WrongSumAccepted(s: State, d: Dev, h: Header)
    requires Starting(s) && HeaderLegal(h) && h.ctrl == VALIDATION_CHECKSUM && h.fwSize == 2 * CHUNK
    requires IMG_ADDR + 2 * CHUNK <= |d.flash|
    requires ByteSum(Chunk(d.flash, 2 * CHUNK, 0)) != ByteSum(Chunk(d.flash, 2 * CHUNK, 1))
    requires h.check == 2 * ByteSum(Chunk(d.flash, 2 * CHUNK, 0))
    ensures var e := Run(s, d.flash, 2 * CHUNK, TANGLED);
      e.ctl.mine.done == Chunks(h.fwSize) && Sum32(e.seen) == h.check
    ensures !ImageIntact(d, h)
  {
    hide ByteSum;
    hide Sum32;
    hide Run;
    var a, b := Chunk(d.flash, 2 * CHUNK, 0), Chunk(d.flash, 2 * CHUNK, 1);
    TangledSees(s, d.flash);
    var image := d.flash[IMG_ADDR..IMG_ADDR + 2 * CHUNK];
    assert image == a + b;
    ByteSumConcat(a, a);
    ByteSumConcat(a, b);
    ChecksumAgrees(a + a);
    ChecksumAgrees(a + b);
  }

  // Such an image exists.
  lemma WrongSumExists() returns (d: Dev, h: Header)
    ensures |d.flash| == FLASH_SIZE && HeaderLegal(h) && h.ctrl == VALIDATION_CHECKSUM && h.fwSize == 2 * CHUNK
    ensures ByteSum(Chunk(d.flash, 2 * CHUNK, 0)) != ByteSum(Chunk(d.flash, 2 * CHUNK, 1))
    ensures h.check == 2 * ByteSum(Chunk(d.flash, 2 * CHUNK, 0))
  {
    var zeros := seq(CHUNK, i => 0 as byte);
    d := Dev(Marked(FLASH_SIZE, 1), map[], 0);
    var a, b := Chunk(d.flash, 2 * CHUNK, 0), Chunk(d.flash, 2 * CHUNK, 1);
    ByteSumZeros(a);
    ByteSumZeros(b[1..]);
    ByteRange(1);
    assert b[0] == 1;
    h := ZERO_HEADER.(magic := MAGIC, fwSize := 2 * CHUNK, ctrl := VALIDATION_CHECKSUM, check := 0);
  }
}

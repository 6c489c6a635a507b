/**
 The serial NOR flash and the program RAM behind `driver/flash.c`, as values.

 Programming can only clear bits and erasing sets them, so a write lands as
 given only on erased flash.  Every device call may be refused: `Faults` gives
 the outcome of the k-th call since power-up, and every theorem holds for all
 such outcomes.  A refused call changes nothing.
 */
module Device {
  import opened Crc32

  const EINVAL: int := -22

  // 4 Mbit part.
  const FLASH_SIZE: nat := 0x80000

  // Negative: the device refuses its k-th call with that error.
  type Faults = nat -> int

  datatype Dev = Dev(flash: seq<byte>, ram: map<nat, byte>, tick: nat)

  // The return value of the device's call number `t` on [addr, addr + len).
  function CallRet(f: Faults, t: nat, flashLen: nat, addr: int, len: nat): (ret: int)
    ensures ret <= 0
    ensures ret == 0 <==> f(t) >= 0 && 0 <= addr && addr + len <= flashLen
  {
    if f(t) < 0 then f(t)
    else if addr < 0 || addr + len > flashLen then EINVAL
    else 0
  }

  function Ret(d: Dev, f: Faults, addr: int, len: nat): int {
    CallRet(f, d.tick, |d.flash|, addr, len)
  }

  // The bytes at [addr, addr + len), or nothing when they are not all there.
  function Slice(flash: seq<byte>, addr: int, len: nat): (r: seq<byte>)
    ensures 0 <= addr && addr + len <= |flash| ==> r == flash[addr..addr + len]
  {
    if 0 <= addr && addr + len <= |flash| then flash[addr..addr + len] else []
  }

  function Erased(n: nat): (r: seq<byte>)
    ensures |r| == n && forall i :: 0 <= i < n ==> r[i] == 0xFF
  {
    seq(n, _ => 0xFF)
  }

  function ClearBits(was: seq<byte>, data: seq<byte>): (r: seq<byte>)
    requires |was| == |data|
    ensures |r| == |data| && forall i :: 0 <= i < |r| ==> r[i] == was[i] & data[i]
  {
    seq(|data|, i requires 0 <= i < |data| && |was| == |data| => was[i] & data[i])
  }

  function Program(flash: seq<byte>, addr: nat, data: seq<byte>): (r: seq<byte>)
    requires addr + |data| <= |flash|
    ensures |r| == |flash|
  {
    flash[..addr] + ClearBits(flash[addr..addr + |data|], data) + flash[addr + |data|..]
  }

  function Erase(flash: seq<byte>, addr: nat, size: nat): (r: seq<byte>)
    requires addr + size <= |flash|
    ensures |r| == |flash|
  {
    flash[..addr] + Erased(size) + flash[addr + size..]
  }

  function Addresses(lo: nat, n: nat): (r: set<nat>)
    ensures forall i :: i in r <==> lo <= i < lo + n
  {
    if n == 0 then {} else Addresses(lo, n - 1) + {lo + n - 1}
  }

  function StoreRam(ram: map<nat, byte>, dst: nat, data: seq<byte>): map<nat, byte> {
    ram + map i | i in Addresses(dst, |data|) :: data[i - dst]
  }

  lemma StoreRamAt(ram: map<nat, byte>, dst: nat, data: seq<byte>, i: nat)
    ensures dst <= i < dst + |data| ==> i in StoreRam(ram, dst, data) && StoreRam(ram, dst, data)[i] == data[i - dst]
    ensures !(dst <= i < dst + |data|) ==> (i in StoreRam(ram, dst, data) <==> i in ram)
    ensures !(dst <= i < dst + |data|) && i in ram ==> StoreRam(ram, dst, data)[i] == ram[i]
  {
  }

  lemma EraseThenClear(b: byte)
    ensures 0xFF & b == b
  {
  }

  // Programming touches only its range, and stores its data where the flash
  // was erased.
  lemma ProgramAt(flash: seq<byte>, addr: nat, data: seq<byte>, i: nat)
    requires addr + |data| <= |flash| && i < |flash|
    ensures !(addr <= i < addr + |data|) ==> Program(flash, addr, data)[i] == flash[i]
    ensures addr <= i < addr + |data| && flash[i] == 0xFF ==> Program(flash, addr, data)[i] == data[i - addr]
  {
    if addr <= i < addr + |data| {
      EraseThenClear(data[i - addr]);
    }
  }

  lemma StoreRamNone(ram: map<nat, byte>, dst: nat)
    ensures StoreRam(ram, dst, []) == ram
  {
  }

  lemma StoreRamConcat(ram: map<nat, byte>, dst: nat, a: seq<byte>, b: seq<byte>)
    ensures StoreRam(StoreRam(ram, dst, a), dst + |a|, b) == StoreRam(ram, dst, a + b)
  {
  }

  // ------------------------------------------------------- chunked transfers

  // The bootloader moves images in chunks of this many bytes.
  const CHUNK: nat := 512

  function Chunks(size: nat): (n: nat)
    ensures CHUNK * n >= size && (n > 0 ==> CHUNK * (n - 1) < size)
  {
    (size + CHUNK - 1) / CHUNK
  }

  function Upto(size: nat, k: nat): nat {
    if CHUNK * k < size then CHUNK * k else size
  }

  function ChunkRet(d: Dev, f: Faults, addr: int, size: nat, k: nat): int
    requires k < Chunks(size)
  {
    CallRet(f, d.tick + k, |d.flash|, addr + CHUNK * k, Upto(size, k + 1) - CHUNK * k)
  }

  // The first chunk, from the k-th on, that the device refuses.
  function FirstBad(d: Dev, f: Faults, addr: int, size: nat, k: nat): (n: nat)
    requires k <= Chunks(size)
    ensures k <= n <= Chunks(size)
    ensures forall j :: k <= j < n ==> ChunkRet(d, f, addr, size, j) == 0
    ensures n < Chunks(size) ==> ChunkRet(d, f, addr, size, n) < 0
    decreases Chunks(size) - k
  {
    if k == Chunks(size) || ChunkRet(d, f, addr, size, k) < 0 then k
    else FirstBad(d, f, addr, size, k + 1)
  }

  // What one pass over [addr, addr + size) yields: the first refusal or 0, the
  // bytes moved before it, and the call counter afterwards.
  datatype Scan = Scan(ret: int, bytes: seq<byte>, tick: nat)

  function ScanOf(d: Dev, f: Faults, addr: int, size: nat): Scan {
    var n := FirstBad(d, f, addr, size, 0);
    if n == Chunks(size) then Scan(0, Slice(d.flash, addr, size), d.tick + n)
    else Scan(ChunkRet(d, f, addr, size, n), Slice(d.flash, addr, CHUNK * n), d.tick + n + 1)
  }

  // A pass succeeds exactly when the region exists and no call is refused, and
  // then it yields the region.
  lemma ScanSucceeds(d: Dev, f: Faults, addr: int, size: nat)
    ensures ScanOf(d, f, addr, size).ret <= 0
    ensures ScanOf(d, f, addr, size).ret == 0 <==>
              forall k :: 0 <= k < Chunks(size) ==> ChunkRet(d, f, addr, size, k) == 0
    ensures ScanOf(d, f, addr, size).ret == 0 && size > 0 ==>
              0 <= addr && addr + size <= |d.flash|
              && ScanOf(d, f, addr, size).bytes == d.flash[addr..addr + size]
  {
    var n := FirstBad(d, f, addr, size, 0);
    if n == Chunks(size) && size > 0 {
      assert ChunkRet(d, f, addr, size, 0) == 0;
      assert ChunkRet(d, f, addr, size, n - 1) == 0;
      assert Upto(size, n) == size;
    }
  }

  // None of the `n` device calls from number `t` on is refused.
  ghost predicate NoneRefused(f: Faults, t: nat, n: nat) {
    forall i :: t <= i < t + n ==> f(i) >= 0
  }

  lemma RefusedInParts(f: Faults, t: nat, m: nat, n: nat)
    ensures NoneRefused(f, t, m + n) <==> NoneRefused(f, t, m) && NoneRefused(f, t + m, n)
  {
    if NoneRefused(f, t, m) && NoneRefused(f, t + m, n) {
      forall i | t <= i < t + (m + n) ensures f(i) >= 0 {
        assert i < t + m || t + m <= i;
      }
    }
  }

  // Over a region that exists a pass succeeds exactly when none of its calls
  // is refused.
  lemma ScanUnrefused(d: Dev, f: Faults, addr: int, size: nat)
    requires 0 <= addr && addr + size <= |d.flash|
    ensures ScanOf(d, f, addr, size).ret == 0 <==> NoneRefused(f, d.tick, Chunks(size))
    ensures ScanOf(d, f, addr, size).ret == 0 ==>
              ScanOf(d, f, addr, size) == Scan(0, d.flash[addr..addr + size], d.tick + Chunks(size))
  {
    var n := FirstBad(d, f, addr, size, 0);
    forall k | 0 <= k < Chunks(size)
      ensures ChunkRet(d, f, addr, size, k) == 0 <==> f(d.tick + k) >= 0
    {
      assert Upto(size, k + 1) <= size;
    }
    if n == Chunks(size) {
      forall i | d.tick <= i < d.tick + n ensures f(i) >= 0 {
        assert ChunkRet(d, f, addr, size, i - d.tick) == 0;
      }
    }
  }

  // The bytes are in RAM from `dst` on.
  ghost predicate RamHolds(ram: map<nat, byte>, dst: nat, data: seq<byte>) {
    forall a :: dst <= a < dst + |data| ==> a in ram && ram[a] == data[a - dst]
  }

  lemma StoreRamHolds(ram: map<nat, byte>, dst: nat, data: seq<byte>)
    ensures RamHolds(StoreRam(ram, dst, data), dst, data)
  {
    hide StoreRam;
    forall a | dst <= a < dst + |data|
      ensures a in StoreRam(ram, dst, data) && StoreRam(ram, dst, data)[a] == data[a - dst]
    {
      StoreRamAt(ram, dst, data, a);
    }
  }

  // ---------------------------------------------- the loop form of a pass

  function ChunkLen(size: nat, k: nat): (n: nat)
    requires k < Chunks(size)
    ensures 0 < n && n == if size - CHUNK * k < CHUNK then size - CHUNK * k else CHUNK
  {
    Upto(size, k + 1) - CHUNK * k
  }

  lemma MoreChunks(size: nat, k: nat)
    requires k <= Chunks(size)
    ensures k < Chunks(size) <==> CHUNK * k < size
  {
  }

  // The bytes the first `k` chunks cover.
  function Moved(d: Dev, addr: int, size: nat, k: nat): seq<byte> {
    Slice(d.flash, addr, Upto(size, k))
  }

  ghost predicate AllGood(d: Dev, f: Faults, addr: int, size: nat, k: nat) {
    k <= Chunks(size) && forall j :: 0 <= j < k ==> ChunkRet(d, f, addr, size, j) == 0
  }

  lemma AllGoodNone(d: Dev, f: Faults, addr: int, size: nat)
    ensures AllGood(d, f, addr, size, 0)
  {
  }

  lemma MovedNone(d: Dev, addr: int, size: nat)
    ensures Moved(d, addr, size, 0) == []
  {
  }

  lemma AllGoodRange(d: Dev, f: Faults, addr: int, size: nat, k: nat)
    requires AllGood(d, f, addr, size, k)
    ensures k <= Chunks(size)
  {
  }

  lemma ChunkGood(d: Dev, f: Faults, addr: int, size: nat, k: nat)
    requires AllGood(d, f, addr, size, k) && k < Chunks(size) && ChunkRet(d, f, addr, size, k) == 0
    ensures AllGood(d, f, addr, size, k + 1)
    ensures 0 <= addr && addr + CHUNK * k + ChunkLen(size, k) <= |d.flash|
    ensures Moved(d, addr, size, k + 1)
         == Moved(d, addr, size, k) + d.flash[addr + CHUNK * k..addr + CHUNK * k + ChunkLen(size, k)]
    ensures |Moved(d, addr, size, k)| == CHUNK * k
  {
    if k > 0 {
      assert ChunkRet(d, f, addr, size, 0) == 0;
    }
  }

  lemma ScanStops(d: Dev, f: Faults, addr: int, size: nat, k: nat)
    requires AllGood(d, f, addr, size, k)
    ensures k == Chunks(size) ==> ScanOf(d, f, addr, size) == Scan(0, Moved(d, addr, size, k), d.tick + k)
    ensures k < Chunks(size) && ChunkRet(d, f, addr, size, k) < 0 ==>
              ScanOf(d, f, addr, size) == Scan(ChunkRet(d, f, addr, size, k), Moved(d, addr, size, k), d.tick + k + 1)
  {
    var n := FirstBad(d, f, addr, size, 0);
    if n < k {
      assert false;
    }
  }
}

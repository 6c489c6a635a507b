/**
 CRC-32 as the packer and the bootloader both compute it.

 `Update` is the inverted-in/inverted-out update the bootloader calls once per
 flash chunk, over the bit-serial shift register of section 3.2.9 of IEEE
 802.3.  `ZlibCrc` is the byte-table form of section 8 of RFC 1952, which the
 packer's library implements.  The two are proved equal, the register is proved
 to divide by the standard's generator, `Update` is proved to compose over
 concatenation, and the check is proved to see every difference confined to four
 consecutive bytes.
 */
module Crc32 {
  import opened Folds

  type byte = bv8

  const POLY: bv32 := 0xEDB8_8320
  const ONES: bv32 := 0xFFFF_FFFF

  function Xor(a: bv32, b: bv32): bv32 {
    a ^ b
  }

  // One clock of the reflected shift register.
  function Shift(r: bv32): bv32 {
    if r & 1 == 1 then Xor(r >> 1, POLY) else r >> 1
  }

  function Shift4(r: bv32): bv32 {
    Shift(Shift(Shift(Shift(r))))
  }

  function Shift8(r: bv32): bv32 {
    Shift4(Shift4(r))
  }

  // Clocks one byte into the register, low bit first.
  function ByteStep(r: bv32, b: byte): bv32 {
    Shift8(Xor(r, b as bv32))
  }

  function Update(crc: bv32, data: seq<byte>): bv32 {
    Xor(Fold(ByteStep, Xor(crc, ONES), data), ONES)
  }

  function Crc(data: seq<byte>): bv32 {
    Update(0, data)
  }

  // The same with a 256-entry table indexed by the low byte.
  function TableEntry(n: bv32): bv32
    requires n & 0xFF == n
  {
    Shift8(n)
  }

  function LowByte(x: bv32): (r: bv32)
    ensures r & 0xFF == r
  {
    x & 0xFF
  }

  function TableStep(c: bv32, b: byte): bv32 {
    Xor(TableEntry(LowByte(Xor(c, b as bv32))), c >> 8)
  }

  function ZlibCrc(data: seq<byte>): bv32 {
    Xor(Fold(TableStep, ONES, data), ONES)
  }

  // --------------------------------------------------- the register is linear

  lemma XorHalves(a: bv32, b: bv32)
    ensures (a ^ b) >> 1 == (a >> 1) ^ (b >> 1)
    ensures (a ^ b) & 1 == 1 <==> ((a & 1 == 1) != (b & 1 == 1))
  {
  }

  lemma XorTidy(x: bv32, y: bv32, p: bv32)
    ensures (x ^ p) ^ (y ^ p) == x ^ y
    ensures (x ^ p) ^ y == (x ^ y) ^ p
    ensures x ^ (y ^ p) == (x ^ y) ^ p
  {
  }

  lemma XorCancel(x: bv32, p: bv32)
    ensures Xor(Xor(x, p), p) == x
    ensures Xor(Xor(p, x), p) == x
  {
  }

  lemma ShiftLinear(a: bv32, b: bv32)
    ensures Shift(Xor(a, b)) == Xor(Shift(a), Shift(b))
  {
    XorHalves(a, b);
    XorTidy(a >> 1, b >> 1, POLY);
  }

  lemma Shift4Linear(a: bv32, b: bv32)
    ensures Shift4(Xor(a, b)) == Xor(Shift4(a), Shift4(b))
  {
    hide Xor;
    hide Shift;
    ShiftLinear(a, b);
    ShiftLinear(Shift(a), Shift(b));
    ShiftLinear(Shift(Shift(a)), Shift(Shift(b)));
    ShiftLinear(Shift(Shift(Shift(a))), Shift(Shift(Shift(b))));
  }

  lemma Shift8Linear(a: bv32, b: bv32)
    ensures Shift8(Xor(a, b)) == Xor(Shift8(a), Shift8(b))
  {
    hide Xor;
    hide Shift4;
    Shift4Linear(a, b);
    Shift4Linear(Shift4(a), Shift4(b));
  }

  // A register whose low byte is clear just moves down one byte.
  lemma Shift8Clear(x: bv32)
    requires LowByte(x) == 0
    ensures Shift8(x) == x >> 8
  {
  }

  lemma SplitLowByte(x: bv32, b: byte)
    ensures Xor(x, b as bv32) == Xor(LowByte(Xor(x, b as bv32)), x & 0xFFFF_FF00)
    ensures LowByte(x & 0xFFFF_FF00) == 0
    ensures (x & 0xFFFF_FF00) >> 8 == x >> 8
  {
  }

  lemma TableStepIsByteStep(c: bv32, b: byte)
    ensures TableStep(c, b) == ByteStep(c, b)
  {
    hide Xor;
    hide LowByte;
    hide Shift8;
    SplitLowByte(c, b);
    Shift8Linear(LowByte(Xor(c, b as bv32)), c & 0xFFFF_FF00);
    Shift8Clear(c & 0xFFFF_FF00);
  }

  // The packer's library and the bootloader agree on every message.
  lemma ZlibIsCrc(data: seq<byte>)
    ensures ZlibCrc(data) == Crc(data)
  {
    hide ByteStep;
    hide TableStep;
    forall s, t ensures TableStep(s, t) == ByteStep(s, t) {
      TableStepIsByteStep(s, t);
    }
    FoldCongruence(TableStep, ByteStep, ONES, data);
    assert Xor(0, ONES) == ONES;
  }

  lemma UpdateConcat(crc: bv32, a: seq<byte>, b: seq<byte>)
    ensures Update(crc, a + b) == Update(Update(crc, a), b)
  {
    hide ByteStep;
    hide Xor;
    FoldConcat(ByteStep, Xor(crc, ONES), a, b);
    XorCancel(Fold(ByteStep, Xor(crc, ONES), a), ONES);
  }

  // ------------------------------------------------------------ the generator

  // Bit 31 - e of the register stands for x to the e.
  function Mask(e: nat): bv32 {
    if e == 0 then 0x8000_0000 else Mask(e - 1) >> 1
  }

  predicate Has(r: bv32, m: bv32) {
    r & m != 0
  }

  predicate Coefficient(r: bv32, e: nat) {
    Has(r, Mask(e))
  }

  // One bit, not the lowest.
  predicate Single(m: bv32) {
    m & (m - 1) == 0 && m > 1
  }

  lemma Masks()
    ensures Mask(0) == 0x8000_0000 && Mask(1) == 0x4000_0000 && Mask(2) == 0x2000_0000 && Mask(3) == 0x1000_0000
    ensures Mask(4) == 0x0800_0000 && Mask(5) == 0x0400_0000 && Mask(6) == 0x0200_0000 && Mask(7) == 0x0100_0000
    ensures Mask(8) == 0x0080_0000 && Mask(9) == 0x0040_0000 && Mask(10) == 0x0020_0000 && Mask(11) == 0x0010_0000
    ensures Mask(12) == 0x0008_0000 && Mask(13) == 0x0004_0000 && Mask(14) == 0x0002_0000 && Mask(15) == 0x0001_0000
    ensures Mask(16) == 0x8000 && Mask(17) == 0x4000 && Mask(18) == 0x2000 && Mask(19) == 0x1000
    ensures Mask(20) == 0x0800 && Mask(21) == 0x0400 && Mask(22) == 0x0200 && Mask(23) == 0x0100
    ensures Mask(24) == 0x80 && Mask(25) == 0x40 && Mask(26) == 0x20 && Mask(27) == 0x10
    ensures Mask(28) == 8 && Mask(29) == 4 && Mask(30) == 2 && Mask(31) == 1
  {
  }

  lemma MaskSingle(e: nat)
    requires e < 31
    ensures Single(Mask(e))
  {
    Masks();
  }

  lemma PolyTerms(e: nat)
    requires e < 32
    ensures Has(POLY, Mask(e)) <==> e in {26, 23, 22, 16, 12, 11, 10, 8, 7, 5, 4, 2, 1, 0}
  {
    Masks();
  }

  lemma ShiftAt(r: bv32, m: bv32)
    requires Single(m)
    ensures Has(Shift(r), m >> 1) == (Has(r, m) != (Has(r, 1) && Has(POLY, m >> 1)))
  {
  }

  lemma ShiftTop(r: bv32)
    ensures Has(Shift(r), 0x8000_0000) == (Has(r, 1) && Has(POLY, 0x8000_0000))
  {
  }

  // One clock multiplies the register by x and reduces it modulo the generator
  // of section 3.2.9 of IEEE 802.3, x^32 plus the powers listed.
  lemma TimesX(r: bv32, e: nat)
    requires e < 32
    ensures Coefficient(Shift(r), e)
         == ((e > 0 && Coefficient(r, e - 1))
             != (Coefficient(r, 31) && e in {26, 23, 22, 16, 12, 11, 10, 8, 7, 5, 4, 2, 1, 0}))
  {
    hide Has;
    hide Shift;
    hide Single;
    PolyTerms(e);
    Masks();
    if e == 0 {
      ShiftTop(r);
    } else {
      MaskSingle(e - 1);
      ShiftAt(r, Mask(e - 1));
    }
  }

  // Two entries of the table in section 8 of RFC 1952.
  lemma TableSamples()
    ensures TableEntry(1) == 0x7707_3096 && TableEntry(0x80) == 0xEDB8_8320
  {
  }

  // "123456789"
  const DIGITS: seq<byte> := [0x31, 0x32, 0x33, 0x34, 0x35, 0x36, 0x37, 0x38, 0x39]

  lemma DigitSteps()
    ensures ByteStep(ONES, 0x31) == 0x7C23_1048
    ensures ByteStep(0x7C23_1048, 0x32) == 0xB0AC_BB32
    ensures ByteStep(0xB0AC_BB32, 0x33) == 0x77B7_9C2D
    ensures ByteStep(0x77B7_9C2D, 0x34) == 0x641C_1F5C
    ensures ByteStep(0x641C_1F5C, 0x35) == 0x340A_C5E3
    ensures ByteStep(0x340A_C5E3, 0x36) == 0xF68D_2C9E
    ensures ByteStep(0xF68D_2C9E, 0x37) == 0xAFFC_9660
    ensures ByteStep(0xAFFC_9660, 0x38) == 0x651F_2550
    ensures ByteStep(0x651F_2550, 0x39) == 0x340B_C6D9
  {
  }

  // The check value by which implementations of this CRC are told apart: it
  // depends on the generator, the bit order, the start value and the inversion.
  lemma CheckValue()
    ensures Crc(DIGITS) == 0xCBF4_3926 && ZlibCrc(DIGITS) == 0xCBF4_3926
  {
    DigitSteps();
    hide ByteStep;
    hide TableStep;
    ZlibIsCrc(DIGITS);
    assert Xor(0, ONES) == ONES;
    assert DIGITS[1..][1..][1..][1..] == DIGITS[4..];
    assert DIGITS[4..][1..][1..][1..][1..] == DIGITS[8..];
    assert Fold(ByteStep, ONES, DIGITS) == Fold(ByteStep, 0x641C_1F5C, DIGITS[4..]);
    assert Fold(ByteStep, 0x641C_1F5C, DIGITS[4..]) == Fold(ByteStep, 0x651F_2550, DIGITS[8..]);
    assert Fold(ByteStep, 0x651F_2550, DIGITS[8..]) == Fold(ByteStep, 0x340B_C6D9, []);
  }

  // ---------------------------------------------------------- burst detection

  lemma ShiftInjective(a: bv32, b: bv32)
    requires Shift(a) == Shift(b)
    ensures a == b
  {
  }

  lemma Shift8Injective(a: bv32, b: bv32)
    requires Shift8(a) == Shift8(b)
    ensures a == b
  {
    hide Shift4;
    Shift4Injective(Shift4(a), Shift4(b));
    Shift4Injective(a, b);
  }

  lemma Shift4Injective(a: bv32, b: bv32)
    requires Shift4(a) == Shift4(b)
    ensures a == b
  {
    hide Shift;
    ShiftInjective(Shift(Shift(Shift(a))), Shift(Shift(Shift(b))));
    ShiftInjective(Shift(Shift(a)), Shift(Shift(b)));
    ShiftInjective(Shift(a), Shift(b));
    ShiftInjective(a, b);
  }

  lemma ByteStepInjective()
    ensures StepInjective(ByteStep)
  {
    hide Xor;
    hide Shift8;
    forall r, s, t | ByteStep(r, t) == ByteStep(s, t)
      ensures r == s
    {
      Shift8Injective(Xor(r, t as bv32), Xor(s, t as bv32));
      XorCancel(r, t as bv32);
      XorCancel(s, t as bv32);
    }
  }

  // At most four bytes, packed as the register absorbs them.
  function Word(w: seq<byte>): bv32
    requires |w| <= 4
    decreases |w|
  {
    if w == [] then 0 else Xor(w[0] as bv32, Up(Word(w[1..])))
  }

  function Up(x: bv32): bv32 {
    x << 8
  }

  // The word still has `n` whole bytes of room at the top.
  predicate Room(n: nat, x: bv32) {
    if n == 0 then true
    else if n == 1 then (x << 8) >> 8 == x
    else if n == 2 then (x << 16) >> 16 == x
    else if n == 3 then (x << 24) >> 24 == x
    else x == 0
  }

  lemma RoomUsed(n: nat, b: byte, x: bv32)
    requires 0 < n <= 4
    requires Room(n, x)
    ensures Room(n - 1, Xor(b as bv32, Up(x)))
  {
  }

  lemma RoomWeaker(n: nat, x: bv32)
    requires 0 < n <= 4
    requires Room(n, x)
    ensures Room(1, x)
  {
  }

  lemma {:induction false} WordRoom(w: seq<byte>)
    requires |w| <= 4
    ensures Room(4 - |w|, Word(w))
    decreases |w|
  {
    hide Xor;
    hide Up;
    if w != [] {
      WordRoom(w[1..]);
      RoomUsed(5 - |w|, w[0], Word(w[1..]));
    }
  }

  function ShiftBytes(n: nat, r: bv32): bv32 {
    if n == 0 then r else ShiftBytes(n - 1, Shift8(r))
  }

  lemma UpClear(w: bv32)
    requires Room(1, w)
    ensures LowByte(Up(w)) == 0
    ensures Up(w) >> 8 == w
  {
  }

  lemma XorAssociative(x: bv32, y: bv32, z: bv32)
    ensures Xor(x, Xor(y, z)) == Xor(Xor(x, y), z)
  {
  }

  // Bytes still to come can be folded into the register ahead of time.
  lemma AbsorbNext(r: bv32, d: bv32, w: bv32)
    requires Room(1, w)
    ensures Shift8(Xor(r, Xor(d, Up(w)))) == Xor(Shift8(Xor(r, d)), w)
  {
    hide Xor;
    hide Shift8;
    hide Up;
    hide Room;
    XorAssociative(r, d, Up(w));
    Shift8Linear(Xor(r, d), Up(w));
    ShiftsDown(w);
  }

  lemma ShiftsDown(w: bv32)
    requires Room(1, w)
    ensures Shift8(Up(w)) == w
  {
    hide Shift8;
    hide LowByte;
    hide Room;
    UpClear(w);
    Shift8Clear(Up(w));
  }

  lemma {:induction false} FoldIsShiftedWord(r: bv32, w: seq<byte>)
    requires |w| <= 4
    ensures Fold(ByteStep, r, w) == ShiftBytes(|w|, Xor(r, Word(w)))
    decreases |w|
  {
    hide Shift8;
    hide Up;
    hide Room;
    if w == [] {
      assert Xor(r, 0) == r;
    } else {
      FoldWordStep(r, w);
    }
  }

  lemma FoldWordStep(r: bv32, w: seq<byte>)
    requires 0 < |w| <= 4
    ensures Fold(ByteStep, r, w) == ShiftBytes(|w|, Xor(r, Word(w)))
    decreases |w|, 0
  {
    hide Xor;
    hide Shift8;
    hide Up;
    hide Room;
    var d := w[0] as bv32;
    FoldIsShiftedWord(ByteStep(r, w[0]), w[1..]);
    WordRoom(w[1..]);
    RoomWeaker(4 - |w[1..]|, Word(w[1..]));
    AbsorbNext(r, d, Word(w[1..]));
  }

  lemma {:induction false} ShiftBytesInjective(n: nat, r: bv32, s: bv32)
    requires ShiftBytes(n, r) == ShiftBytes(n, s)
    ensures r == s
  {
    hide Shift8;
    if n != 0 {
      ShiftBytesInjective(n - 1, Shift8(r), Shift8(s));
      Shift8Injective(r, s);
    }
  }

  lemma PeelLow(b: byte, x: bv32)
    requires Room(1, x)
    ensures LowByte(Xor(b as bv32, Up(x))) as byte == b
    ensures (Xor(b as bv32, Up(x))) >> 8 == x
  {
  }

  lemma PeelByte(b: byte, c: byte, x: bv32, y: bv32)
    requires Room(1, x) && Room(1, y)
    requires Xor(b as bv32, Up(x)) == Xor(c as bv32, Up(y))
    ensures b == c && x == y
  {
    hide Xor;
    hide Up;
    hide LowByte;
    hide Room;
    PeelLow(b, x);
    PeelLow(c, y);
  }

  lemma {:induction false} WordInjective(v: seq<byte>, w: seq<byte>)
    requires |v| == |w| <= 4
    requires Word(v) == Word(w)
    ensures v == w
    decreases |v|
  {
    hide Xor;
    hide Up;
    hide Room;
    if v != [] {
      WordRoom(v[1..]);
      WordRoom(w[1..]);
      RoomWeaker(4 - |v[1..]|, Word(v[1..]));
      RoomWeaker(4 - |w[1..]|, Word(w[1..]));
      PeelByte(v[0], w[0], Word(v[1..]), Word(w[1..]));
      WordInjective(v[1..], w[1..]);
      assert v == [v[0]] + v[1..] && w == [w[0]] + w[1..];
    }
  }

  // Two messages that differ only inside one window of at most four
  // consecutive bytes always have different CRCs.
  lemma BurstDetected(pre: seq<byte>, v: seq<byte>, w: seq<byte>, post: seq<byte>)
    requires |v| == |w| <= 4 && v != w
    ensures Crc(pre + v + post) != Crc(pre + w + post)
  {
    hide ByteStep;
    hide Xor;
    hide Word;
    if Crc(pre + v + post) == Crc(pre + w + post) {
      var r0 := Xor(0, ONES);
      XorCancel(Fold(ByteStep, r0, pre + v + post), ONES);
      XorCancel(Fold(ByteStep, r0, pre + w + post), ONES);
      FoldConcat(ByteStep, r0, pre + v, post);
      FoldConcat(ByteStep, r0, pre + w, post);
      FoldConcat(ByteStep, r0, pre, v);
      FoldConcat(ByteStep, r0, pre, w);
      var r := Fold(ByteStep, r0, pre);
      ByteStepInjective();
      FoldInjective(ByteStep, Fold(ByteStep, r, v), Fold(ByteStep, r, w), post);
      FoldIsShiftedWord(r, v);
      FoldIsShiftedWord(r, w);
      ShiftBytesInjective(|v|, Xor(r, Word(v)), Xor(r, Word(w)));
      XorCancel(Word(v), r);
      XorCancel(Word(w), r);
      WordInjective(v, w);
    }
  }
}

/**
 The 32-byte little-endian image header and the packaging tool
 (`tools/pack_ec_image.py`, `interface/storage.h`).
 */
module Image {
  import opened Bytes
  import opened Crc32
  import opened Folds
  import opened Wrappers
  import Device

  const HEADER_SIZE: nat := 32
  const TARGET_IMAGE_SIZE: nat := 200 * 1024
  const FW_PAYLOAD_SIZE: nat := TARGET_IMAGE_SIZE - HEADER_SIZE
  const MAGIC: nat := 0x5746_4345
  const U32_LIMIT: nat := 0x1_0000_0000

  // ------------------------------------------------------- little-endian words

  // Bytes as numbers and back.
  function Val(b: byte): (n: nat)
    ensures n < 256
  {
    b as int
  }

  function Chr(n: int): byte
    requires 0 <= n < 256
  {
    n as byte
  }

  lemma ChrVal(b: byte)
    ensures Chr(Val(b)) == b
  {
  }

  lemma ValChr(n: int)
    requires 0 <= n < 256
    ensures Val(Chr(n)) == n
  {
    ByteRange(n);
  }

  lemma ZeroByte()
    ensures Val(0) == 0
  {
  }

  function Le(b: seq<byte>): nat
    decreases |b|
  {
    if b == [] then 0 else Val(b[0]) + 256 * Le(b[1..])
  }

  function PutLe(v: nat, k: nat): (r: seq<byte>)
    ensures |r| == k
  {
    if k == 0 then [] else [Chr(v % 256)] + PutLe(v / 256, k - 1)
  }

  function Radix(k: nat): nat {
    if k == 0 then 1 else 256 * Radix(k - 1)
  }

  lemma {:induction false} LeOfPutLe(v: nat, k: nat)
    requires v < Radix(k)
    ensures Le(PutLe(v, k)) == v
  {
    hide Val;
    hide Chr;
    if k != 0 {
      ValChr(v % 256);
      LeOfPutLe(v / 256, k - 1);
      assert PutLe(v, k)[1..] == PutLe(v / 256, k - 1);
    }
  }

  lemma {:induction false} PutLeOfLe(b: seq<byte>)
    ensures PutLe(Le(b), |b|) == b
    ensures Le(b) < Radix(|b|)
    decreases |b|
  {
    hide Val;
    hide Chr;
    if b != [] {
      ChrVal(b[0]);
      PutLeOfLe(b[1..]);
      assert b == [b[0]] + b[1..];
    }
  }

  lemma LeInjective(b: seq<byte>, c: seq<byte>)
    requires |b| == |c| && Le(b) == Le(c)
    ensures b == c
  {
    PutLeOfLe(b);
    PutLeOfLe(c);
  }

  lemma Radixes()
    ensures Radix(1) == 256 && Radix(2) == 0x1_0000 && Radix(3) == 0x100_0000 && Radix(4) == U32_LIMIT
  {
    assert Radix(0) == 1;
    assert Radix(1) == 256 * Radix(0);
    assert Radix(2) == 256 * Radix(1);
    assert Radix(3) == 256 * Radix(2);
    assert Radix(4) == 256 * Radix(3);
  }

  // The bytes of a CRC register, and its value as an unsigned 32-bit integer.
  function Bytes32(v: bv32): (r: seq<byte>)
    ensures |r| == 4
  {
    [(v & 0xFF) as byte, ((v >> 8) & 0xFF) as byte, ((v >> 16) & 0xFF) as byte, ((v >> 24) & 0xFF) as byte]
  }

  function U32(v: bv32): nat {
    Le(Bytes32(v))
  }

  lemma Bytes32Injective(v: bv32, w: bv32)
    requires Bytes32(v) == Bytes32(w)
    ensures v == w
  {
    var b, c := Bytes32(v), Bytes32(w);
    assert b[0] == c[0] && b[1] == c[1] && b[2] == c[2] && b[3] == c[3];
    Gather(v);
    Gather(w);
  }

  lemma Gather(v: bv32)
    ensures ((v & 0xFF) as byte as bv32) | (((v >> 8) & 0xFF) as byte as bv32 << 8)
            | (((v >> 16) & 0xFF) as byte as bv32 << 16) | (((v >> 24) & 0xFF) as byte as bv32 << 24) == v
  {
  }

  lemma U32Faithful(v: bv32, w: bv32)
    ensures U32(v) < U32_LIMIT
    ensures U32(v) == U32(w) ==> v == w
  {
    hide Bytes32;
    PutLeOfLe(Bytes32(v));
    Radixes();
    if U32(v) == U32(w) {
      LeInjective(Bytes32(v), Bytes32(w));
      Bytes32Injective(v, w);
    }
  }

  // ----------------------------------------------------------------- checksum

  function ByteSum(data: seq<byte>): nat
    decreases |data|
  {
    if data == [] then 0 else Val(data[0]) + ByteSum(data[1..])
  }

  lemma {:induction false} ByteSumConcat(a: seq<byte>, b: seq<byte>)
    ensures ByteSum(a + b) == ByteSum(a) + ByteSum(b)
    decreases |a|
  {
    hide Val;
    if a == [] {
      assert a + b == b;
    } else {
      assert (a + b)[1..] == a[1..] + b;
      ByteSumConcat(a[1..], b);
    }
  }

  lemma ByteSumZeros(a: seq<byte>)
    requires forall i :: 0 <= i < |a| ==> a[i] == 0
    ensures ByteSum(a) == 0
    decreases |a|
  {
    hide Val;
    ZeroByte();
    if a != [] {
      ByteSumZeros(a[1..]);
    }
  }

  // One addition of the bootloader's 32-bit accumulator.
  function SumStep(s: nat, b: byte): nat {
    (s + Val(b)) % U32_LIMIT
  }

  function Sum32(data: seq<byte>): nat {
    Fold(SumStep, 0, data)
  }

  lemma {:induction false} SumFold(s: nat, data: seq<byte>)
    requires s < U32_LIMIT
    ensures Fold(SumStep, s, data) == (s + ByteSum(data)) % U32_LIMIT
    decreases |data|
  {
    if data != [] {
      SumFold(SumStep(s, data[0]), data[1..]);
      WrapOnce(s + Val(data[0]), ByteSum(data[1..]));
    }
  }

  lemma WrapOnce(a: nat, b: nat)
    ensures (a % U32_LIMIT + b) % U32_LIMIT == (a + b) % U32_LIMIT
  {
    var q := a / U32_LIMIT;
    assert a % U32_LIMIT + b == (a + b) - q * U32_LIMIT;
    WrapMany(a % U32_LIMIT + b, q);
  }

  lemma {:induction false} WrapMany(x: nat, q: nat)
    ensures (x + q * U32_LIMIT) % U32_LIMIT == x % U32_LIMIT
  {
    if q != 0 {
      WrapMany(x, q - 1);
      assert x + q * U32_LIMIT == (x + (q - 1) * U32_LIMIT) + U32_LIMIT;
    }
  }

  lemma {:induction false} ByteSumBound(data: seq<byte>)
    ensures ByteSum(data) <= 255 * |data|
    decreases |data|
  {
    if data != [] {
      ByteSumBound(data[1..]);
    }
  }

  // The bootloader's wrapping sum is the packer's masked sum, and on an image
  // of any size the bootloader accepts neither ever wraps.
  lemma ChecksumAgrees(data: seq<byte>)
    ensures Sum32(data) == ByteSum(data) % U32_LIMIT
    ensures |data| <= 464 * 1024 ==> Sum32(data) == ByteSum(data)
  {
    SumFold(0, data);
    ByteSumBound(data);
  }

  // ------------------------------------------------------------------- header

  datatype Version = Version(major: int, minor: int, test: int)

  datatype Header = Header(
    magic: int, loadAddress: int, fwSize: int, version: Version, ctrl: int,
    lowest: Version, reserved1: int, check: int, auxSize: int, reserved2: seq<byte>)

  const VALIDATION_NONE: int := 0
  const VALIDATION_CRC: int := 1
  const VALIDATION_CHECKSUM: int := 2

  // How the bootloader's packed struct reads 32 bytes.
  function Decode(b: seq<byte>): (h: Header)
    requires |b| == HEADER_SIZE
    ensures h.fwSize >= 0 && h.check >= 0 && h.loadAddress >= 0
  {
    Header(
      Le(b[0..4]), Le(b[4..8]), Le(b[8..12]),
      Version(Val(b[12]), Val(b[13]), Val(b[14])), Val(b[15]),
      Version(Val(b[16]), Val(b[17]), Val(b[18])), Val(b[19]),
      Le(b[20..24]), Le(b[24..26]), b[26..32])
  }

  // The struct accounts for every header byte.
  lemma DecodeInjective(b: seq<byte>, c: seq<byte>)
    requires |b| == |c| == HEADER_SIZE
    requires Decode(b) == Decode(c)
    ensures b == c
  {
    hide Val;
    hide Chr;
    hide Le;
    LeInjective(b[0..4], c[0..4]);
    LeInjective(b[4..8], c[4..8]);
    LeInjective(b[8..12], c[8..12]);
    LeInjective(b[20..24], c[20..24]);
    LeInjective(b[24..26], c[24..26]);
    forall i | 12 <= i < 20 ensures b[i] == c[i] {
      assert Val(b[i]) == Val(c[i]);
      ChrVal(b[i]);
      ChrVal(c[i]);
    }
    assert b == b[0..4] + b[4..8] + b[8..12] + [b[12], b[13], b[14], b[15]]
                + [b[16], b[17], b[18], b[19]] + b[20..24] + b[24..26] + b[26..32];
    assert c == c[0..4] + c[4..8] + c[8..12] + [c[12], c[13], c[14], c[15]]
                + [c[16], c[17], c[18], c[19]] + c[20..24] + c[24..26] + c[26..32];
  }

  // Where each field lies, numbers low byte first.
  lemma HeaderLayout(b: seq<byte>)
    requires |b| == HEADER_SIZE
    ensures var h := Decode(b);
      && h.magic == Word4(b, 0) && h.loadAddress == Word4(b, 4) && h.fwSize == Word4(b, 8) && h.check == Word4(b, 20)
      && h.version == Version(Val(b[12]), Val(b[13]), Val(b[14])) && h.ctrl == Val(b[15])
      && h.lowest == Version(Val(b[16]), Val(b[17]), Val(b[18])) && h.auxSize == Val(b[24]) + 0x100 * Val(b[25])
  {
    hide Val;
    Le4(b, 0);
    Le4(b, 4);
    Le4(b, 8);
    Le4(b, 20);
    var c := b[24..26];
    assert Le(c) == Val(c[0]) + 256 * Le(c[1..]) && c[1..] == [b[25]];
    assert Le([b[25]]) == Val(b[25]) + 256 * Le([]);
  }

  function Word4(b: seq<byte>, i: nat): nat
    requires i + 4 <= |b|
  {
    Val(b[i]) + 0x100 * Val(b[i + 1]) + 0x1_0000 * Val(b[i + 2]) + 0x100_0000 * Val(b[i + 3])
  }

  lemma Le4(b: seq<byte>, i: nat)
    requires i + 4 <= |b|
    ensures Le(b[i..i + 4]) == Word4(b, i)
  {
    hide Val;
    var c := b[i..i + 4];
    assert c[1..] == [b[i + 1], b[i + 2], b[i + 3]] && c[1..][1..] == [b[i + 2], b[i + 3]];
    assert c[1..][1..][1..] == [b[i + 3]];
    assert Le(c) == Val(c[0]) + 256 * Le(c[1..]);
    assert Le(c[1..]) == Val(b[i + 1]) + 256 * Le(c[1..][1..]);
    assert Le(c[1..][1..]) == Val(b[i + 2]) + 256 * Le([b[i + 3]]);
    assert Le([b[i + 3]]) == Val(b[i + 3]) + 256 * Le([]);
  }

  // ------------------------------------------------------------------- packer

  datatype Mode = ModeCrc | ModeChecksum | ModeNone

  datatype PackError = EmptyInput | InputTooLarge | FieldOutOfRange

  function Ctrl(mode: Mode): int {
    match mode
    case ModeCrc => VALIDATION_CRC
    case ModeChecksum => VALIDATION_CHECKSUM
    case ModeNone => VALIDATION_NONE
  }

  function Signature(mode: Mode, data: seq<byte>): nat {
    match mode
    case ModeCrc => U32(ZlibCrc(data))
    case ModeChecksum => ByteSum(data) % U32_LIMIT
    case ModeNone => 0
  }

  function Padded(payload: seq<byte>): (r: seq<byte>)
    requires |payload| <= FW_PAYLOAD_SIZE
    ensures |r| == FW_PAYLOAD_SIZE
  {
    payload + Device.Erased(FW_PAYLOAD_SIZE - |payload|)
  }

  predicate IsByte(v: int) {
    0 <= v < 256
  }

  predicate VersionFits(v: Version) {
    IsByte(v.major) && IsByte(v.minor) && IsByte(v.test)
  }

  // Which header arguments the tool's struct format accepts.
  predicate FieldsFit(fwSize: int, load: int, ver: Version, low: Version, sig: int, ctrl: int, aux: int) {
    0 <= fwSize < U32_LIMIT && 0 <= load < U32_LIMIT && VersionFits(ver) && VersionFits(low)
    && 0 <= sig < U32_LIMIT && IsByte(ctrl) && 0 <= aux < 0x1_0000
  }

  function BuildHeader(fwSize: int, load: int, ver: Version, low: Version, sig: int, ctrl: int, aux: int)
    : (r: Result<seq<byte>, PackError>)
    ensures r.Success? <==> FieldsFit(fwSize, load, ver, low, sig, ctrl, aux)
    ensures r.Success? ==> |r.value| == HEADER_SIZE
  {
    if !FieldsFit(fwSize, load, ver, low, sig, ctrl, aux) then Failure(FieldOutOfRange)
    else
      Success(
        PutLe(MAGIC, 4) + PutLe(load, 4) + PutLe(fwSize, 4)
        + [Chr(ver.major), Chr(ver.minor), Chr(ver.test), Chr(ctrl)]
        + [Chr(low.major), Chr(low.minor), Chr(low.test), 0]
        + PutLe(sig, 4) + PutLe(aux, 2) + [0, 0, 0, 0, 0, 0])
  }

  // The bootloader reads back every field the packer wrote.
  lemma HeaderRoundTrip(fwSize: int, load: int, ver: Version, low: Version, sig: int, ctrl: int, aux: int)
    requires FieldsFit(fwSize, load, ver, low, sig, ctrl, aux)
    ensures Decode(BuildHeader(fwSize, load, ver, low, sig, ctrl, aux).value)
         == Header(MAGIC, load, fwSize, ver, ctrl, low, 0, sig, aux, [0, 0, 0, 0, 0, 0])
  {
    hide Val;
    hide Chr;
    hide Le;
    hide PutLe;
    ZeroByte();
    var b := BuildHeader(fwSize, load, ver, low, sig, ctrl, aux).value;
    Radixes();
    assert b[0..4] == PutLe(MAGIC, 4);
    assert b[4..8] == PutLe(load, 4);
    assert b[8..12] == PutLe(fwSize, 4);
    assert b[20..24] == PutLe(sig, 4);
    assert b[24..26] == PutLe(aux, 2);
    assert b[26..32] == [0, 0, 0, 0, 0, 0];
    ValChr(ver.major);
    ValChr(ver.minor);
    ValChr(ver.test);
    ValChr(ctrl);
    ValChr(low.major);
    ValChr(low.minor);
    ValChr(low.test);
    LeOfPutLe(MAGIC, 4);
    LeOfPutLe(load, 4);
    LeOfPutLe(fwSize, 4);
    LeOfPutLe(sig, 4);
    LeOfPutLe(aux, 2);
  }

  // What a packaged file is, in the bootloader's terms.
  ghost predicate IsPackage(image: seq<byte>, payload: seq<byte>, aux: seq<byte>, load: int,
                            ver: Version, low: Version, mode: Mode) {
    && |payload| <= FW_PAYLOAD_SIZE
    && |image| == TARGET_IMAGE_SIZE + |aux|
    && Decode(image[..HEADER_SIZE])
       == Header(MAGIC, load, FW_PAYLOAD_SIZE, ver, Ctrl(mode), low, 0,
                 Signature(mode, Padded(payload)), |aux|, [0, 0, 0, 0, 0, 0])
    && image[HEADER_SIZE..TARGET_IMAGE_SIZE] == Padded(payload)
    && image[TARGET_IMAGE_SIZE..] == aux
  }

  method PackFirmware(payload: seq<byte>, aux: seq<byte>, load: int, ver: Version, low: Version, mode: Mode)
    returns (r: Result<seq<byte>, PackError>)
    ensures |payload| == 0 ==> r == Failure(EmptyInput)
    ensures |payload| > FW_PAYLOAD_SIZE ==> r == Failure(InputTooLarge)
    ensures 0 < |payload| <= FW_PAYLOAD_SIZE ==>
              if 0 <= load < U32_LIMIT && VersionFits(ver) && VersionFits(low) && |aux| < 0x1_0000
              then r.Success? && IsPackage(r.value, payload, aux, load, ver, low, mode)
              else r == Failure(FieldOutOfRange)
  {
    var fw := payload;
    if |fw| == 0 {
      return Failure(EmptyInput);
    }
    if |fw| > FW_PAYLOAD_SIZE {
      return Failure(InputTooLarge);
    }
    fw := fw + Device.Erased(FW_PAYLOAD_SIZE - |fw|);
    var signature := Signature(mode, fw);
    SignatureFits(mode, fw);
    var header := BuildHeader(|fw|, load, ver, low, signature, Ctrl(mode), |aux|);
    if header.Failure? {
      return Failure(FieldOutOfRange);
    }
    HeaderRoundTrip(|fw|, load, ver, low, signature, Ctrl(mode), |aux|);
    var image := header.value + fw + aux;
    assert image[..HEADER_SIZE] == header.value;
    assert image[HEADER_SIZE..TARGET_IMAGE_SIZE] == fw;
    assert image[TARGET_IMAGE_SIZE..] == aux;
    return Success(image);
  }

  lemma SignatureFits(mode: Mode, data: seq<byte>)
    ensures Signature(mode, data) < U32_LIMIT
  {
    hide ZlibCrc;
    U32Faithful(ZlibCrc(data), ZlibCrc(data));
  }

  // The header of a packaged file byte by byte: "ECFW", load address, size,
  // version, control byte, lowest version, signature and auxiliary size at their
  // places, zeros between them.
  lemma PackedHeader(image: seq<byte>, payload: seq<byte>, aux: seq<byte>, load: int,
                     ver: Version, low: Version, mode: Mode)
    requires IsPackage(image, payload, aux, load, ver, low, mode)
    ensures |image| == 204800 + |aux|
    ensures Word4(image, 0) == 0x5746_4345 && Word4(image, 4) == load && Word4(image, 8) == 204768
    ensures Version(Val(image[12]), Val(image[13]), Val(image[14])) == ver
    ensures Version(Val(image[16]), Val(image[17]), Val(image[18])) == low
    ensures Val(image[15]) == match mode case ModeNone => 0 case ModeCrc => 1 case ModeChecksum => 2
    ensures Val(image[24]) + 0x100 * Val(image[25]) == |aux|
    ensures Val(image[19]) == 0 && image[26..32] == [0, 0, 0, 0, 0, 0]
    ensures Word4(image, 20)
         == match mode
            case ModeNone => 0
            case ModeCrc => U32(ZlibCrc(image[32..204800]))
            case ModeChecksum => ByteSum(image[32..204800])
  {
    hide Val;
    hide ZlibCrc;
    hide ByteSum;
    hide U32;
    hide Word4;
    var b := image[..HEADER_SIZE];
    HeaderLayout(b);
    RestLayout(b);
    hide Decode;
    Word4Prefix(image, 0);
    Word4Prefix(image, 4);
    Word4Prefix(image, 8);
    Word4Prefix(image, 20);
    assert image[26..32] == b[26..32];
    ByteSumBound(Padded(payload));
    hide Padded;
  }

  lemma Word4Prefix(image: seq<byte>, i: nat)
    requires i + 4 <= HEADER_SIZE <= |image|
    ensures Word4(image[..HEADER_SIZE], i) == Word4(image, i)
  {
    hide Val;
  }

  lemma RestLayout(b: seq<byte>)
    requires |b| == HEADER_SIZE
    ensures Decode(b).reserved2 == b[26..32] && Decode(b).reserved1 == Val(b[19])
  {
    hide Val;
  }

  // The rest: the payload from byte 32 on, 0xFF up to 200 KiB, then the
  // auxiliary data.
  lemma PackedBody(image: seq<byte>, payload: seq<byte>, aux: seq<byte>, load: int,
                   ver: Version, low: Version, mode: Mode)
    requires IsPackage(image, payload, aux, load, ver, low, mode)
    ensures |payload| <= 204768 && |image| == 204800 + |aux|
    ensures forall i :: 32 <= i < 204800 ==> image[i] == if i < 32 + |payload| then payload[i - 32] else 0xFF
    ensures forall i :: 204800 <= i < |image| ==> image[i] == aux[i - 204800]
  {
    hide Decode;
    hide Signature;
    forall i | 32 <= i < 204800 ensures image[i] == if i < 32 + |payload| then payload[i - 32] else 0xFF {
      assert image[i] == image[HEADER_SIZE..TARGET_IMAGE_SIZE][i - 32];
    }
    forall i | 204800 <= i < |image| ensures image[i] == aux[i - 204800] {
      assert image[i] == image[TARGET_IMAGE_SIZE..][i - 204800];
    }
  }

  // The CRC signature of "123456789", and what a one-byte file would sum to.
  lemma SignatureSamples(x: byte)
    ensures Signature(ModeCrc, DIGITS) == 0xCBF4_3926 && Signature(ModeChecksum, [x]) == Val(x)
  {
    CheckValue();
    U32Sample();
    hide ZlibCrc;
    hide U32;
    hide Val;
    assert ByteSum([x]) == Val(x) + ByteSum([x][1..]);
  }

  lemma U32Sample()
    ensures U32(0xCBF4_3926) == 0xCBF4_3926
  {
    var b := [0x26, 0x39, 0xF4, 0xCB];
    assert Bytes32(0xCBF4_3926) == b;
    hide Bytes32;
    Le4(b, 0);
    assert b[0..4] == b;
  }

  // The value the bootloader computes for a mode, over the same bytes.
  function Digest(ctrl: int, data: seq<byte>): nat {
    if ctrl == VALIDATION_CHECKSUM then Sum32(data) else U32(Crc(data))
  }

  // A packaged image carries the digest the bootloader will compute.
  lemma SignatureIsDigest(mode: Mode, data: seq<byte>)
    requires mode != ModeNone
    ensures Signature(mode, data) == Digest(Ctrl(mode), data)
  {
    hide ZlibCrc;
    hide Crc;
    ZlibIsCrc(data);
    ChecksumAgrees(data);
  }
}

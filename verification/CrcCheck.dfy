/** Known answers: the check values of the two parameter sets in use, and one whole header,
    computed on machine words that the registers are proved to follow. */
module CrcCheck {
  import opened Bits
  import opened CrcSpec
  import opened CrcLaws
  import opened Frame
  import opened MachineWords

  function WordStep(poly: bv32, x: bv32): bv32 {
    if Low(x) then Mix(Half(x), poly) else Half(x)
  }

  function WordSteps(poly: bv32, x: bv32, k: nat): bv32
    decreases k
  {
    if k == 0 then x else WordSteps(poly, WordStep(poly, x), k - 1)
  }

  /** A reflected parameter set on machine words. */
  ghost predicate Follows(p: Parameters, poly: bv32) {
    p.Valid() && p.reflectInput && WordOf(poly, p.Width()) == Reverse(p.polynomial) && Above(poly, p.Width()) == 0
  }

  lemma {:induction false} StepOf(p: Parameters, poly: bv32, x: bv32)
    requires Follows(p, poly) && Above(x, p.Width()) == 0
    ensures Step(p, WordOf(x, p.Width())) == WordOf(WordStep(poly, x), p.Width())
    ensures Above(WordStep(poly, x), p.Width()) == 0
  {
    OfZero();
    hide Xor, ShiftRight, Above, Low, Half, Mix;
    HalfOf(x, p.Width());
    XorOf(Half(x), poly, p.Width());
  }

  lemma {:induction false} StepsOf(p: Parameters, poly: bv32, x: bv32, k: nat)
    requires Follows(p, poly) && Above(x, p.Width()) == 0
    ensures Steps(p, WordOf(x, p.Width()), k) == WordOf(WordSteps(poly, x, k), p.Width())
    ensures Above(WordSteps(poly, x, k), p.Width()) == 0
    decreases k
  {
    hide Step, WordOf, WordStep, Above, Follows;
    if k > 0 {
      FollowsValid(p, poly);
      StepOf(p, poly, x);
      StepsOf(p, poly, WordStep(poly, x), k - 1);
    }
  }

  lemma {:induction false} FollowsValid(p: Parameters, poly: bv32)
    requires Follows(p, poly)
    ensures p.Valid()
  {
  }

  function WordRemainder(poly: bv32, data: seq<bv32>, x: bv32): bv32
    decreases |data|
  {
    if data == [] then x else WordRemainder(poly, data[1..], WordSteps(poly, Mix(x, data[0]), 8))
  }

  lemma {:induction false} ByteStepOf(p: Parameters, poly: bv32, b: Byte, d: bv32, x: bv32)
    requires Follows(p, poly) && Above(x, p.Width()) == 0 && SameByte(b, d)
    ensures ByteStep(p, WordOf(x, p.Width()), b) == WordOf(WordSteps(poly, Mix(x, d), 8), p.Width())
    ensures Above(WordSteps(poly, Mix(x, d), 8), p.Width()) == 0
  {
    OfZero();
    hide WordOf, Above, Steps, WordSteps, Xor, Low, Half, Mix;
    Widened(d, p.Width());
    XorOf(x, d, p.Width());
    StepsOf(p, poly, Mix(x, d), 8);
  }

  lemma {:induction false} RemainderOf(p: Parameters, poly: bv32, data: seq<Byte>, words: seq<bv32>, x: bv32)
    requires Follows(p, poly) && Above(x, p.Width()) == 0
    requires |data| == |words| && forall i :: 0 <= i < |data| ==> SameByte(data[i], words[i])
    ensures Remainder(p, data, WordOf(x, p.Width())) == WordOf(WordRemainder(poly, words, x), p.Width())
    decreases |data|
  {
    hide WordOf, Above, WordSteps, ByteStep, SameByte, Follows, Mix;
    FollowsValid(p, poly);
    if data != [] {
      ByteStepOf(p, poly, data[0], words[0], x);
      RemainderOf(p, poly, data[1..], words[1..], WordSteps(poly, Mix(x, words[0]), 8));
    }
  }

  lemma {:induction false} SameMirror(p: Parameters, x: bv32)
    requires p.Valid() && p.reflectInput && MirrorNumber(x, p.Width()) == FromBits(p.polynomial)
    requires Above(x, p.Width()) == 0
    ensures Follows(p, x)
  {
    WordMirror(x, p.Width());
    ToFromBits(p.polynomial);
    ToFromBits(Reverse(WordOf(x, p.Width())));
    ReverseTwice(WordOf(x, p.Width()));
  }

  // ----- known answers

  lemma {:induction false} ArcMirrored()
    ensures 0x100 * MirrorByte(0xA001) + MirrorByte(DropByte(0xA001)) == 0x8005
    ensures DropByte(DropByte(0xA001)) == 0
  {
    DropByteShifts(0xA001);
    DropByteShifts(0xA0);
    MirrorByteMasks(0xA001);
    MirrorByteMasks(0xA0);
    hide MirrorByte, LowByte, DropByte;
  }

  lemma {:induction false} ArcFollows()
    ensures Follows(Crc16Arc(), 0xA001)
  {
    ArcMirrored();
    hide MirrorNumber, Above, FromBits, NumberOf, MirrorByte, Follows, DropByte;
    ArcParameters();
    Number16(0xA001);
    SameMirror(Crc16Arc(), 0xA001);
  }

  lemma {:induction false} Crc32Mirrored()
    ensures 0x100_0000 * MirrorByte(0xEDB8_8320) + 0x1_0000 * MirrorByte(DropByte(0xEDB8_8320))
      + 0x100 * MirrorByte(DropByte(DropByte(0xEDB8_8320))) + MirrorByte(DropByte(DropByte(DropByte(0xEDB8_8320))))
      == 0x04C1_1DB7
  {
    DropByteShifts(0xEDB8_8320);
    DropByteShifts(0xED_B883);
    DropByteShifts(0xEDB8);
    MirrorByteMasks(0xEDB8_8320);
    MirrorByteMasks(0xED_B883);
    MirrorByteMasks(0xEDB8);
    MirrorByteMasks(0xED);
    hide MirrorByte, LowByte, DropByte;
  }

  lemma {:induction false} Crc32Follows()
    ensures Follows(Crc32(), 0xEDB8_8320)
  {
    Crc32Mirrored();
    hide MirrorNumber, Above, FromBits, NumberOf, MirrorByte, Follows, DropByte;
    Crc32Parameters();
    Number32(0xEDB8_8320);
    SameMirror(Crc32(), 0xEDB8_8320);
  }

  /** The digits 1 to 9 in ASCII, as bytes and as machine words. */
  function Text(): seq<Byte> {
    [0x31, 0x32, 0x33, 0x34, 0x35, 0x36, 0x37, 0x38, 0x39]
  }

  function TextWords(): seq<bv32> {
    [0x31, 0x32, 0x33, 0x34, 0x35, 0x36, 0x37, 0x38, 0x39]
  }

  lemma {:induction false} TextIsSame()
    ensures |Text()| == |TextWords()| == 9 && forall i :: 0 <= i < 9 ==> SameByte(Text()[i], TextWords()[i])
  {
    hide SameByte;
    SameDigits(0x31, 0x31);
    SameDigits(0x32, 0x32);
    SameDigits(0x33, 0x33);
    SameDigits(0x34, 0x34);
    SameDigits(0x35, 0x35);
    SameDigits(0x36, 0x36);
    SameDigits(0x37, 0x37);
    SameDigits(0x38, 0x38);
    SameDigits(0x39, 0x39);
  }

  lemma {:induction false} RemainderNext(poly: bv32, data: seq<bv32>, x: bv32)
    requires data != []
    ensures WordRemainder(poly, data, x) == WordRemainder(poly, data[1..], WordSteps(poly, Mix(x, data[0]), 8))
  {
  }

  lemma {:induction false} RemainderAlong(poly: bv32, data: seq<bv32>, x: seq<bv32>, k: nat)
    requires k <= |data| && |x| == |data| + 1
    requires forall i :: 0 <= i < |data| ==> x[i + 1] == WordSteps(poly, Mix(x[i], data[i]), 8)
    ensures WordRemainder(poly, data[k..], x[k]) == x[|data|]
    decreases |data| - k
  {
    hide WordSteps, Mix;
    if k < |data| {
      RemainderNext(poly, data[k..], x[k]);
      assert data[k..][1..] == data[k + 1..];
      RemainderAlong(poly, data, x, k + 1);
    }
  }

  function RawStep(poly: bv32, x: bv32): bv32 {
    if x & 1 != 0 then (x >> 1) ^ poly else x >> 1
  }

  function RawByte(poly: bv32, x: bv32): bv32 {
    RawStep(poly, RawStep(poly, RawStep(poly, RawStep(poly,
      RawStep(poly, RawStep(poly, RawStep(poly, RawStep(poly, x))))))))
  }

  lemma {:induction false} RawSteps(poly: bv32, x: bv32, d: bv32, y: bv32)
    requires RawByte(poly, x ^ d) == y
    ensures WordSteps(poly, Mix(x, d), 8) == y
  {
    hide WordStep, RawStep;
    assert forall z :: WordStep(poly, z) == RawStep(poly, z) by { RawIsStep(poly); }
    var a := Mix(x, d);
    hide Mix;
  }

  lemma {:induction false} RawIsStep(poly: bv32)
    ensures forall z :: WordStep(poly, z) == RawStep(poly, z)
  {
  }

  /** `x` lists the register before each byte and after the last. */
  ghost predicate Traces(poly: bv32, data: seq<bv32>, x: seq<bv32>) {
    |x| == |data| + 1 && forall i :: 0 <= i < |data| ==> x[i + 1] == WordSteps(poly, Mix(x[i], data[i]), 8)
  }

  lemma {:induction false} TraceEnds(poly: bv32, data: seq<bv32>, x: seq<bv32>)
    requires Traces(poly, data, x)
    ensures WordRemainder(poly, data, x[0]) == x[|data|]
  {
    RemainderAlong(poly, data, x, 0);
    assert data[0..] == data;
  }

  lemma {:induction false} ArcBytes()
    ensures RawByte(0xA001, 0 ^ 0x31) == 0xD4C1
    ensures RawByte(0xA001, 0xD4C1 ^ 0x32) == 0x4594
    ensures RawByte(0xA001, 0x4594 ^ 0x33) == 0xBA04
    ensures RawByte(0xA001, 0xBA04 ^ 0x34) == 0x14BA
    ensures RawByte(0xA001, 0x14BA ^ 0x35) == 0xA455
    ensures RawByte(0xA001, 0xA455 ^ 0x36) == 0x29E4
    ensures RawByte(0xA001, 0x29E4 ^ 0x37) == 0x9D68
    ensures RawByte(0xA001, 0x9D68 ^ 0x38) == 0x3C9D
    ensures RawByte(0xA001, 0x3C9D ^ 0x39) == 0xBB3D
  {
  }

  lemma {:induction false} ArcTraces() returns (x: seq<bv32>)
    ensures Traces(0xA001, TextWords(), x) && x[0] == 0 && x[9] == 0xBB3D
  {
    ArcBytes();
    hide WordSteps, Mix, RawByte;
    x := [0, 0xD4C1, 0x4594, 0xBA04, 0x14BA, 0xA455, 0x29E4, 0x9D68, 0x3C9D, 0xBB3D];
    RawSteps(0xA001, 0, 0x31, 0xD4C1);
    RawSteps(0xA001, 0xD4C1, 0x32, 0x4594);
    RawSteps(0xA001, 0x4594, 0x33, 0xBA04);
    RawSteps(0xA001, 0xBA04, 0x34, 0x14BA);
    RawSteps(0xA001, 0x14BA, 0x35, 0xA455);
    RawSteps(0xA001, 0xA455, 0x36, 0x29E4);
    RawSteps(0xA001, 0x29E4, 0x37, 0x9D68);
    RawSteps(0xA001, 0x9D68, 0x38, 0x3C9D);
    RawSteps(0xA001, 0x3C9D, 0x39, 0xBB3D);
  }

  lemma {:induction false} Crc32Bytes()
    ensures RawByte(0xEDB8_8320, 0xFFFF_FFFF ^ 0x31) == 0x7C23_1048
    ensures RawByte(0xEDB8_8320, 0x7C23_1048 ^ 0x32) == 0xB0AC_BB32
    ensures RawByte(0xEDB8_8320, 0xB0AC_BB32 ^ 0x33) == 0x77B7_9C2D
    ensures RawByte(0xEDB8_8320, 0x77B7_9C2D ^ 0x34) == 0x641C_1F5C
    ensures RawByte(0xEDB8_8320, 0x641C_1F5C ^ 0x35) == 0x340A_C5E3
    ensures RawByte(0xEDB8_8320, 0x340A_C5E3 ^ 0x36) == 0xF68D_2C9E
    ensures RawByte(0xEDB8_8320, 0xF68D_2C9E ^ 0x37) == 0xAFFC_9660
    ensures RawByte(0xEDB8_8320, 0xAFFC_9660 ^ 0x38) == 0x651F_2550
    ensures RawByte(0xEDB8_8320, 0x651F_2550 ^ 0x39) == 0x340B_C6D9
  {
  }

  lemma {:induction false} Crc32Traces() returns (x: seq<bv32>)
    ensures Traces(0xEDB8_8320, TextWords(), x) && x[0] == 0xFFFF_FFFF && x[9] == 0x340B_C6D9
  {
    Crc32Bytes();
    hide WordSteps, Mix, RawByte;
    x := [0xFFFF_FFFF, 0x7C23_1048, 0xB0AC_BB32, 0x77B7_9C2D, 0x641C_1F5C,
          0x340A_C5E3, 0xF68D_2C9E, 0xAFFC_9660, 0x651F_2550, 0x340B_C6D9];
    RawSteps(0xEDB8_8320, 0xFFFF_FFFF, 0x31, 0x7C23_1048);
    RawSteps(0xEDB8_8320, 0x7C23_1048, 0x32, 0xB0AC_BB32);
    RawSteps(0xEDB8_8320, 0xB0AC_BB32, 0x33, 0x77B7_9C2D);
    RawSteps(0xEDB8_8320, 0x77B7_9C2D, 0x34, 0x641C_1F5C);
    RawSteps(0xEDB8_8320, 0x641C_1F5C, 0x35, 0x340A_C5E3);
    RawSteps(0xEDB8_8320, 0x340A_C5E3, 0x36, 0xF68D_2C9E);
    RawSteps(0xEDB8_8320, 0xF68D_2C9E, 0x37, 0xAFFC_9660);
    RawSteps(0xEDB8_8320, 0xAFFC_9660, 0x38, 0x651F_2550);
    RawSteps(0xEDB8_8320, 0x651F_2550, 0x39, 0x340B_C6D9);
  }

  lemma {:induction false} ArcResult()
    ensures NumberOf(0xBB3D, 16) == 0xBB3D
  {
    hide NumberOf;
    TwoBytes(0xBB3D, 0xBB);
  }

  lemma {:induction false} Crc32Result()
    ensures NumberOf(0xCBF4_3926, 32) == 0xCBF4_3926
  {
    hide NumberOf;
    FourBytes(0xCBF4_3926, 0xCB_F439, 0xCBF4, 0xCB);
  }

  lemma {:induction false} OnesNumber()
    ensures NumberOf(0xFFFF_FFFF, 32) == 0xFFFF_FFFF
  {
    hide NumberOf;
    FourBytes(0xFFFF_FFFF, 0xFF_FFFF, 0xFFFF, 0xFF);
  }

  lemma {:induction false} ArcTextRemainder()
    ensures Remainder(Crc16Arc(), Text(), WordOf(0, 16)) == WordOf(0xBB3D, 16)
  {
    ArcFollows();
    TextIsSame();
    var x := ArcTraces();
    ZeroFits(16);
    hide WordOf, WordSteps, Traces, TextWords, Text, SameByte, Follows, Remainder, Above, Crc16Arc, WordRemainder;
    TraceEnds(0xA001, TextWords(), x);
    RemainderOf(Crc16Arc(), 0xA001, Text(), TextWords(), 0);
  }

  lemma {:induction false} AllOnesFit()
    ensures Above(0xFFFF_FFFF, 32) == 0
  {
    hide Above;
    Number32(0xFFFF_FFFF);
  }

  lemma {:induction false} Crc32TextRemainder()
    ensures Remainder(Crc32(), Text(), WordOf(0xFFFF_FFFF, 32)) == WordOf(0x340B_C6D9, 32)
  {
    Crc32Follows();
    TextIsSame();
    var x := Crc32Traces();
    AllOnesFit();
    hide WordOf, WordSteps, Traces, TextWords, Text, SameByte, Follows, Remainder, Above, Crc32, WordRemainder;
    TraceEnds(0xEDB8_8320, TextWords(), x);
    RemainderOf(Crc32(), 0xEDB8_8320, Text(), TextWords(), 0xFFFF_FFFF);
  }

  /** The check value of CRC-16/ARC. */
  lemma {:induction false} ArcCheckValue()
    ensures FromBits(Checksum(Crc16Arc(), [0x31, 0x32, 0x33, 0x34, 0x35, 0x36, 0x37, 0x38, 0x39])) == 0xBB3D
  {
    ArcTextRemainder();
    WordOfZero(16);
    XorZeros(WordOf(0xBB3D, 16));
    WordNumber(0xBB3D, 16);
    ArcResult();
    hide WordOf, NumberOf, Remainder, FromBits, Xor, Constant, Zeros;
  }

  lemma {:induction false} AllOnes()
    ensures WordOf(0xFFFF_FFFF, 32) == Constant(0xFFFF_FFFF, 32)
  {
    Powers();
    OnesNumber();
    hide WordOf, NumberOf, Constant, Pow2;
    SameConstant(0xFFFF_FFFF, 0xFFFF_FFFF, 32);
  }

  lemma {:induction false} Crc32Flipped()
    ensures Xor(WordOf(0x340B_C6D9, 32), WordOf(0xFFFF_FFFF, 32)) == WordOf(0xCBF4_3926, 32)
  {
    XorOf(0x340B_C6D9, 0xFFFF_FFFF, 32);
    hide WordOf, Xor;
  }

  /** The check value of CRC-32. */
  lemma {:induction false} Crc32CheckValue()
    ensures FromBits(Checksum(Crc32(), [0x31, 0x32, 0x33, 0x34, 0x35, 0x36, 0x37, 0x38, 0x39])) == 0xCBF4_3926
  {
    Crc32TextRemainder();
    AllOnes();
    Crc32Flipped();
    WordNumber(0xCBF4_3926, 32);
    Crc32Result();
    hide WordOf, NumberOf, Remainder, FromBits, Xor, Constant;
  }

  // ----- one whole header

  /** An empty client list: version 10, no payload checksum, no payload. */
  function EmptyList(): (s: seq<Byte>)
    ensures |s| == 12
  {
    [0xDA, 0xAB, 0x0A, 0, 0, 0, 0, 0, 0, 0, 0x2F, 0xC1]
  }

  function ListWords(): seq<bv32> {
    [0xDA, 0xAB, 0x0A, 0, 0, 0, 0, 0, 0, 0]
  }

  lemma {:induction false} ListIsSame()
    ensures |ListWords()| == 10 && forall i :: 0 <= i < 10 ==> SameByte(EmptyList()[i], ListWords()[i])
  {
    hide SameByte;
    SameDigits(0xDA, 0xDA);
    SameDigits(0xAB, 0xAB);
    SameDigits(0x0A, 0x0A);
    SameDigits(0, 0);
  }

  lemma {:induction false} ListBytes()
    ensures RawByte(0xA001, 0 ^ 0xDA) == 0x9B81
    ensures RawByte(0xA001, 0x9B81 ^ 0xAB) == 0xDF1A
    ensures RawByte(0xA001, 0xDF1A ^ 0x0A) == 0xCCDE
    ensures RawByte(0xA001, 0xCCDE ^ 0) == 0x584C
    ensures RawByte(0xA001, 0x584C ^ 0) == 0xF559
    ensures RawByte(0xA001, 0xF559 ^ 0) == 0x3A35
    ensures RawByte(0xA001, 0x3A35 ^ 0) == 0x17FA
    ensures RawByte(0xA001, 0x17FA ^ 0) == 0x4397
    ensures RawByte(0xA001, 0x4397 ^ 0) == 0xAE02
    ensures RawByte(0xA001, 0xAE02 ^ 0) == 0xC12F
  {
  }

  lemma {:induction false} ListTraces() returns (x: seq<bv32>)
    ensures Traces(0xA001, ListWords(), x) && x[0] == 0 && x[10] == 0xC12F
  {
    ListBytes();
    hide WordSteps, Mix, RawByte;
    x := [0, 0x9B81, 0xDF1A, 0xCCDE, 0x584C, 0xF559, 0x3A35, 0x17FA, 0x4397, 0xAE02, 0xC12F];
    RawSteps(0xA001, 0, 0xDA, 0x9B81);
    RawSteps(0xA001, 0x9B81, 0xAB, 0xDF1A);
    RawSteps(0xA001, 0xDF1A, 0x0A, 0xCCDE);
    RawSteps(0xA001, 0xCCDE, 0, 0x584C);
    RawSteps(0xA001, 0x584C, 0, 0xF559);
    RawSteps(0xA001, 0xF559, 0, 0x3A35);
    RawSteps(0xA001, 0x3A35, 0, 0x17FA);
    RawSteps(0xA001, 0x17FA, 0, 0x4397);
    RawSteps(0xA001, 0x4397, 0, 0xAE02);
    RawSteps(0xA001, 0xAE02, 0, 0xC12F);
  }

  lemma {:induction false} ListChecksum()
    ensures Checksum(Crc16Arc(), EmptyList()[..10]) == WordOf(0xC12F, 16)
  {
    ArcFollows();
    ListIsSame();
    var x := ListTraces();
    ZeroFits(16);
    WordOfZero(16);
    XorZeros(WordOf(0xC12F, 16));
    hide WordOf, WordSteps, Traces, ListWords, EmptyList, SameByte, Follows, Remainder, Above, Xor, Zeros, Constant;
    TraceEnds(0xA001, ListWords(), x);
    RemainderOf(Crc16Arc(), 0xA001, EmptyList()[..10], ListWords(), 0);
  }

  lemma {:induction false} ListStored()
    ensures BitsOf([0x2F, 0xC1]) == WordOf(0xC12F, 16)
  {
    hide BitsOf, FromBits, ToBits, WordOf, NumberOf;
    StoredPair([0x2F, 0xC1]);
    WordNumber(0xC12F, 16);
    TwoBytes(0xC12F, 0xC1);
    SameWord(BitsOf([0x2F, 0xC1]), WordOf(0xC12F, 16));
  }

  /** These twelve bytes are a correct header. */
  lemma {:induction false} KnownHeader()
    ensures IsHeader([0xDA, 0xAB, 0x0A, 0, 0, 0, 0, 0, 0, 0, 0x2F, 0xC1])
  {
    hide Checksum, BitsOf, WordOf;
    ListChecksum();
    ListStored();
    assert EmptyList()[10..12] == [0x2F, 0xC1];
  }
}

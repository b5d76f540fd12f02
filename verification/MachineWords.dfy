/** Words as machine integers: the bit sequence of a 32-bit value, and the number it stands
    for, so that known answers can be computed on machine arithmetic. */
module MachineWords {
  import opened Bits
  import opened CrcLaws

  predicate Low(x: bv32) {
    x & 1 != 0
  }

  function Half(x: bv32): bv32 {
    x >> 1
  }

  function Mix(x: bv32, y: bv32): bv32 {
    x ^ y
  }

  lemma {:induction false} MixLow(x: bv32, y: bv32)
    ensures Low(Mix(x, y)) == (Low(x) != Low(y))
  {
  }

  lemma {:induction false} MixHalf(x: bv32, y: bv32)
    ensures Half(Mix(x, y)) == Mix(Half(x), Half(y))
  {
  }

  lemma {:induction false} OfZero()
    ensures !Low(0) && Half(0) == 0 && Mix(0, 0) == 0
  {
  }

  /** The low `n` bits of a machine word. */
  function WordOf(x: bv32, n: nat): (w: Word)
    ensures |w| == n
    decreases n
  {
    if n == 0 then [] else [Low(x)] + WordOf(Half(x), n - 1)
  }

  /** What is left of it above those bits. */
  function Above(x: bv32, n: nat): bv32
    decreases n
  {
    if n == 0 then x else Above(Half(x), n - 1)
  }

  lemma {:induction false} XorOf(x: bv32, y: bv32, n: nat)
    ensures WordOf(Mix(x, y), n) == Xor(WordOf(x, n), WordOf(y, n))
    ensures Above(Mix(x, y), n) == Mix(Above(x, n), Above(y, n))
    decreases n
  {
    hide Low, Half, Mix, Xor;
    if n == 0 {
      assert Xor([], []) == [];
    } else {
      MixLow(x, y);
      MixHalf(x, y);
      XorOf(Half(x), Half(y), n - 1);
      XorCons(Low(x), WordOf(Half(x), n - 1), Low(y), WordOf(Half(y), n - 1));
    }
  }

  lemma {:induction false} LastBit(x: bv32, n: nat)
    requires n > 0
    ensures WordOf(x, n) == WordOf(x, n - 1) + [Low(Above(x, n - 1))]
    ensures Above(x, n) == Half(Above(x, n - 1))
    decreases n
  {
    hide Low, Half;
    if n > 1 {
      LastBit(Half(x), n - 1);
    }
  }

  lemma {:induction false} HalfOf(x: bv32, n: nat)
    requires n > 0 && Above(x, n) == 0
    ensures ShiftRight(WordOf(x, n)) == WordOf(Half(x), n) && Above(Half(x), n) == 0
  {
    OfZero();
    hide Low, Half;
    LastBit(Half(x), n);
  }

  /** The byte as a machine word. */
  ghost predicate SameByte(b: Byte, x: bv32) {
    ByteBits(b) == WordOf(x, 8) && Above(x, 8) == 0
  }

  lemma {:induction false} Widened(x: bv32, n: nat)
    requires n >= 8 && Above(x, 8) == 0
    ensures WordOf(x, n) == WordOf(x, 8) + Zeros(n - 8) && Above(x, n) == 0
    decreases n
  {
    if n == 8 {
      assert WordOf(x, 8) + Zeros(0) == WordOf(x, 8);
    } else {
      Widened(x, n - 1);
      LastBit(x, n);
      OfZero();
      hide WordOf, Above, Low, Half;
      assert Zeros(n - 9) + [false] == Zeros(n - 8);
    }
  }

  // ----- machine words as numbers

  function Bit(b: bool): nat {
    if b then 1 else 0
  }

  function NumberOf(x: bv32, n: nat): nat
    decreases n
  {
    if n == 0 then 0 else Bit(Low(x)) + 2 * NumberOf(Half(x), n - 1)
  }

  lemma {:induction false} WordNumber(x: bv32, n: nat)
    ensures FromBits(WordOf(x, n)) == NumberOf(x, n) && WordOf(x, n) == ToBits(NumberOf(x, n), n)
    decreases n
  {
    hide Low, Half;
    if n > 0 {
      WordNumber(Half(x), n - 1);
      FromBitsCons(WordOf(x, n));
      assert WordOf(x, n)[1..] == WordOf(Half(x), n - 1);
    }
    ToFromBits(WordOf(x, n));
  }

  /** The number of the `n` bits read the other way around. */
  function MirrorNumber(x: bv32, n: nat): nat
    decreases n
  {
    if n == 0 then 0 else Pow2(n - 1) * Bit(Low(x)) + MirrorNumber(Half(x), n - 1)
  }

  lemma {:induction false} WordMirror(x: bv32, n: nat)
    ensures FromBits(Reverse(WordOf(x, n))) == MirrorNumber(x, n)
    decreases n
  {
    hide Low, Half, Pow2, Reverse;
    if n == 0 {
      ReverseZeros(0);
      assert WordOf(x, 0) == Zeros(0) == [];
    } else {
      var rest := WordOf(Half(x), n - 1);
      WordMirror(Half(x), n - 1);
      ReverseConcat([Low(x)], rest);
      ReverseAt([Low(x)]);
      assert Reverse([Low(x)]) == [Low(x)];
      FromBitsConcat(Reverse(rest), [Low(x)]);
      OneBit(Low(x), Pow2(n - 1));
    }
  }

  lemma {:induction false} OneBit(b: bool, p: nat)
    ensures p * FromBits([b]) == p * Bit(b)
  {
    assert FromBits([b]) == Bit(b);
  }

  lemma {:induction false} WordOfZero(n: nat)
    ensures WordOf(0, n) == Zeros(n)
    decreases n
  {
    OfZero();
    hide Low, Half;
    if n > 0 {
      WordOfZero(n - 1);
      assert Zeros(n) == [false] + Zeros(n - 1);
    }
  }

  lemma {:induction false} SameConstant(x: bv32, v: nat, n: nat)
    requires NumberOf(x, n) == v < Pow2(n)
    ensures WordOf(x, n) == Constant(v, n)
  {
    WordNumber(x, n);
    ConstantIsToBits(v, n);
  }

  lemma {:induction false} SameNumber(b: Byte, x: bv32)
    requires NumberOf(x, 8) == b as int && Above(x, 8) == 0
    ensures SameByte(b, x)
  {
    WordNumber(x, 8);
  }

  // ----- and digit by digit in base sixteen

  function Digit(x: bv32): nat {
    Bit(Low(x)) + 2 * Bit(Low(Half(x))) + 4 * Bit(Low(Half(Half(x)))) + 8 * Bit(Low(Half(Half(Half(x)))))
  }

  function MirrorDigit(x: bv32): nat {
    8 * Bit(Low(x)) + 4 * Bit(Low(Half(x))) + 2 * Bit(Low(Half(Half(x)))) + Bit(Low(Half(Half(Half(x)))))
  }

  function DropDigit(x: bv32): bv32 {
    Half(Half(Half(Half(x))))
  }

  function DropByte(x: bv32): bv32 {
    DropDigit(DropDigit(x))
  }

  lemma {:induction false} NumberStep(x: bv32, n: nat)
    requires n > 0
    ensures Above(x, n) == Above(Half(x), n - 1)
    ensures NumberOf(x, n) == Bit(Low(x)) + 2 * NumberOf(Half(x), n - 1)
    ensures MirrorNumber(x, n) == Pow2(n - 1) * Bit(Low(x)) + MirrorNumber(Half(x), n - 1)
  {
  }

  lemma {:induction false} FourSteps(x: bv32, n: nat)
    ensures Above(x, n + 4) == Above(DropDigit(x), n)
    ensures NumberOf(x, n + 4) == Digit(x) + 16 * NumberOf(DropDigit(x), n)
    ensures MirrorNumber(x, n + 4) == Pow2(n) * MirrorDigit(x) + MirrorNumber(DropDigit(x), n)
  {
    FourPowers(n);
    hide Low, Half, Pow2, Above, NumberOf, MirrorNumber, Bit;
    NumberStep(x, n + 4);
    NumberStep(Half(x), n + 3);
    NumberStep(Half(Half(x)), n + 2);
    NumberStep(Half(Half(Half(x))), n + 1);
    Spread(Pow2(n), Bit(Low(x)), Bit(Low(Half(x))), Bit(Low(Half(Half(x)))), Bit(Low(Half(Half(Half(x))))));
  }

  lemma {:induction false} Spread(p: nat, a: nat, b: nat, c: nat, d: nat)
    ensures 8 * p * a + 4 * p * b + 2 * p * c + p * d == p * (8 * a + 4 * b + 2 * c + d)
  {
  }

  lemma {:induction false} FourPowers(n: nat)
    ensures Pow2(n + 1) == 2 * Pow2(n) && Pow2(n + 2) == 4 * Pow2(n) && Pow2(n + 3) == 8 * Pow2(n)
  {
  }

  /** The number of the low byte, and the number of its bits the other way around. */
  function LowByte(x: bv32): nat {
    Digit(x) + 0x10 * Digit(DropDigit(x))
  }

  function MirrorByte(x: bv32): nat {
    0x10 * MirrorDigit(x) + MirrorDigit(DropDigit(x))
  }

  lemma {:induction false} EightSteps(x: bv32, n: nat)
    ensures Above(x, n + 8) == Above(DropByte(x), n)
    ensures NumberOf(x, n + 8) == LowByte(x) + 0x100 * NumberOf(DropByte(x), n)
    ensures MirrorNumber(x, n + 8) == Pow2(n) * MirrorByte(x) + MirrorNumber(DropByte(x), n)
  {
    FourSteps(x, n + 4);
    FourSteps(DropDigit(x), n);
    FourPowers(n);
    PowCons(n + 4, 1);
    hide Above, NumberOf, MirrorNumber, Pow2, Digit, MirrorDigit, DropDigit;
    SplitByte(Pow2(n), MirrorDigit(x), MirrorDigit(DropDigit(x)));
  }

  lemma {:induction false} SplitByte(p: nat, a: nat, b: nat)
    ensures 16 * p * a + p * b == p * (0x10 * a + b)
  {
  }

  lemma {:induction false} DropByteShifts(x: bv32)
    ensures DropByte(x) == x >> 8
  {
  }

  lemma {:induction false} NothingAbove(x: bv32)
    ensures DropByte(DropByte(DropByte(DropByte(x)))) == 0
  {
    DropByteShifts(x);
    DropByteShifts(x >> 8);
    DropByteShifts(x >> 8 >> 8);
    DropByteShifts(x >> 8 >> 8 >> 8);
    hide DropByte;
    assert x >> 8 >> 8 >> 8 >> 8 == 0;
  }

  lemma {:induction false} NoSteps(x: bv32)
    ensures Above(x, 0) == x && NumberOf(x, 0) == 0 && MirrorNumber(x, 0) == 0
  {
  }

  lemma {:induction false} PowersOfBytes()
    ensures Pow2(0) == 1 && Pow2(8) == 0x100 && Pow2(16) == 0x1_0000 && Pow2(24) == 0x100_0000
  {
    assert Pow2(8) == 0x100;
    assert Pow2(16) == 0x1_0000;
  }

  lemma {:induction false} Number8(x: bv32)
    ensures Above(x, 8) == DropByte(x) && NumberOf(x, 8) == LowByte(x)
  {
    hide Above, NumberOf, MirrorNumber, LowByte, MirrorByte, DropByte;
    EightSteps(x, 0);
    NoSteps(DropByte(x));
  }

  lemma {:induction false} Number16(x: bv32)
    ensures Above(x, 16) == DropByte(DropByte(x)) && NumberOf(x, 16) == LowByte(x) + 0x100 * LowByte(DropByte(x))
    ensures MirrorNumber(x, 16) == 0x100 * MirrorByte(x) + MirrorByte(DropByte(x))
  {
    PowersOfBytes();
    hide Above, NumberOf, MirrorNumber, LowByte, MirrorByte, Pow2, DropByte;
    EightSteps(x, 8);
    EightSteps(DropByte(x), 0);
    NoSteps(DropByte(DropByte(x)));
  }

  lemma {:induction false} Number32(x: bv32)
    ensures Above(x, 32) == 0
    ensures NumberOf(x, 32)
      == LowByte(x) + 0x100 * LowByte(DropByte(x)) + 0x1_0000 * LowByte(DropByte(DropByte(x)))
         + 0x100_0000 * LowByte(DropByte(DropByte(DropByte(x))))
    ensures MirrorNumber(x, 32)
      == 0x100_0000 * MirrorByte(x) + 0x1_0000 * MirrorByte(DropByte(x)) + 0x100 * MirrorByte(DropByte(DropByte(x)))
         + MirrorByte(DropByte(DropByte(DropByte(x))))
  {
    PowersOfBytes();
    hide Above, NumberOf, MirrorNumber, LowByte, MirrorByte, Pow2, DropByte;
    EightSteps(x, 24);
    EightSteps(DropByte(x), 16);
    EightSteps(DropByte(DropByte(x)), 8);
    EightSteps(DropByte(DropByte(DropByte(x))), 0);
    NothingAbove(x);
    NoSteps(0);
  }

  // ----- the same by masks, which need no recursion

  function Masked(x: bv32): nat {
    Bit(x & 1 != 0) + 2 * Bit(x & 2 != 0) + 4 * Bit(x & 4 != 0) + 8 * Bit(x & 8 != 0)
  }

  function MaskedMirror(x: bv32): nat {
    8 * Bit(x & 1 != 0) + 4 * Bit(x & 2 != 0) + 2 * Bit(x & 4 != 0) + Bit(x & 8 != 0)
  }

  lemma {:induction false} SecondBit(x: bv32)
    ensures Low(Half(x)) == (x & 2 != 0)
  {
  }

  lemma {:induction false} ThirdBit(x: bv32)
    ensures Low(Half(Half(x))) == (x & 4 != 0)
  {
  }

  lemma {:induction false} FourthBit(x: bv32)
    ensures Low(Half(Half(Half(x)))) == (x & 8 != 0)
  {
  }

  lemma {:induction false} DigitShifts(x: bv32)
    ensures DropDigit(x) == x >> 4
  {
  }

  lemma {:induction false} DigitMasks(x: bv32)
    ensures Digit(x) == Masked(x) && MirrorDigit(x) == MaskedMirror(x)
  {
    SecondBit(x);
    ThirdBit(x);
    FourthBit(x);
    hide Half, Bit;
  }

  lemma {:induction false} MirrorByteMasks(x: bv32)
    ensures MirrorByte(x) == 0x10 * MaskedMirror(x) + MaskedMirror(x >> 4)
    ensures LowByte(x) == Masked(x) + 0x10 * Masked(x >> 4)
  {
    DigitMasks(x);
    DigitMasks(x >> 4);
    DigitShifts(x);
    hide Digit, MirrorDigit, DropDigit, Masked, MaskedMirror;
  }

  lemma {:induction false} AsByte(b: Byte, x: bv32)
    requires LowByte(x) == b as int && DropByte(x) == 0
    ensures SameByte(b, x)
  {
    hide LowByte, NumberOf, Above, SameByte;
    Number8(x);
    SameNumber(b, x);
  }

  /** A byte and a machine word of the same two digits in base sixteen. */
  lemma {:induction false} SameDigits(b: Byte, x: bv32)
    requires b as int == Masked(x) + 0x10 * Masked(x >> 4) && x >> 4 >> 4 == 0
    ensures SameByte(b, x)
  {
    MirrorByteMasks(x);
    DropByteShifts(x);
    ByteShifts(x);
    hide LowByte, MirrorByte, DropByte, Masked, MaskedMirror, SameByte;
    AsByte(b, x);
  }

  lemma {:induction false} ByteShifts(x: bv32)
    ensures x >> 4 >> 4 == x >> 8
  {
  }

  lemma {:induction false} ZeroFits(n: nat)
    ensures Above(0, n) == 0
    decreases n
  {
    OfZero();
    hide Half;
    if n > 0 {
      ZeroFits(n - 1);
    }
  }

  function MaskedByte(x: bv32): nat {
    Masked(x) + 0x10 * Masked(x >> 4)
  }

  lemma {:induction false} LowByteMasks(x: bv32)
    ensures LowByte(x) == MaskedByte(x)
  {
    MirrorByteMasks(x);
    hide LowByte;
  }

  /** A machine word of two bytes, or of four, and the number it stands for. */
  lemma {:induction false} TwoBytes(x: bv32, high: bv32)
    requires x >> 8 == high && high >> 8 == 0
    ensures NumberOf(x, 16) == MaskedByte(x) + 0x100 * MaskedByte(high)
  {
    DropByteShifts(x);
    LowByteMasks(x);
    LowByteMasks(high);
    hide DropByte, LowByte, MaskedByte, NumberOf, MirrorNumber, Above, MirrorByte;
    Number16(x);
  }

  lemma {:induction false} FourBytes(x: bv32, b: bv32, c: bv32, d: bv32)
    requires x >> 8 == b && b >> 8 == c && c >> 8 == d
    ensures NumberOf(x, 32)
      == MaskedByte(x) + 0x100 * MaskedByte(b) + 0x1_0000 * MaskedByte(c) + 0x100_0000 * MaskedByte(d)
  {
    DropByteShifts(x);
    DropByteShifts(b);
    DropByteShifts(c);
    LowByteMasks(x);
    LowByteMasks(b);
    LowByteMasks(c);
    LowByteMasks(d);
    hide DropByte, LowByte, MaskedByte, NumberOf, MirrorNumber, Above, MirrorByte;
    Number32(x);
  }
}

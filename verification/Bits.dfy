/** Fixed-width unsigned integers, seen as their bits, and the bytes that carry them.
    A word lists its bits with the least significant one first, so the width of
    a machine integer is the length of its word and every shift drops the bits
    that leave that width. */
module Bits {

  newtype Byte = n: int | 0 <= n < 256

  type Word = seq<bool>

  function Zeros(n: nat): (w: Word)
    ensures |w| == n && forall i :: 0 <= i < n ==> !w[i]
  {
    seq(n, _ => false)
  }

  function Xor(a: Word, b: Word): (c: Word)
    requires |a| == |b|
    ensures |c| == |a| && forall i :: 0 <= i < |a| ==> c[i] == (a[i] != b[i])
  {
    seq(|a|, i requires 0 <= i < |a| => a[i] != b[i])
  }

  function Reverse(a: Word): (r: Word)
    ensures |r| == |a|
  {
    seq(|a|, i requires 0 <= i < |a| => a[|a| - 1 - i])
  }

  /** `value >> 1` at a fixed width. */
  function ShiftRight(a: Word): (r: Word)
    requires |a| > 0
    ensures |r| == |a|
  {
    a[1..] + [false]
  }

  /** `value << 1` truncated to a fixed width. */
  function ShiftLeft(a: Word): (r: Word)
    requires |a| > 0
    ensures |r| == |a|
  {
    ([false] + a)[..|a|]
  }

  function Pow2(n: nat): (p: nat)
    ensures p > 0
  {
    if n == 0 then 1 else 2 * Pow2(n - 1)
  }

  /** The low `width` bits of `n`. */
  function ToBits(n: nat, width: nat): (w: Word)
    ensures |w| == width
  {
    if width == 0 then [] else [n % 2 == 1] + ToBits(n / 2, width - 1)
  }

  /** Bit `i` of `n`. */
  function BitAt(n: nat, i: nat): bool {
    if i == 0 then n % 2 == 1 else BitAt(n / 2, i - 1)
  }

  /** A constant of a given width, written as a number. */
  function Constant(n: nat, width: nat): (w: Word)
    ensures |w| == width
  {
    seq(width, i requires 0 <= i => BitAt(n, i))
  }

  /** The unsigned value of a word. */
  function FromBits(w: Word): (n: nat)
    ensures n < Pow2(|w|)
  {
    if w == [] then 0 else (if w[0] then 1 else 0) + 2 * FromBits(w[1..])
  }

  function ByteBits(b: Byte): (w: Word)
    ensures |w| == 8
  {
    ToBits(b as int, 8)
  }

  function ByteOf(w: Word): (b: Byte)
    requires |w| == 8
  {
    assert Pow2(8) == 256;
    FromBits(w) as Byte
  }

  /** The bits of a byte string in the order a reflected CRC consumes them,
      which is also the little-endian reading of an integer stored in it. */
  function BitsOf(data: seq<Byte>): (w: Word)
    ensures |w| == 8 * |data|
  {
    if data == [] then [] else ByteBits(data[0]) + BitsOf(data[1..])
  }

  /** The little-endian bytes of a word. */
  function BytesOf(w: Word): (data: seq<Byte>)
    requires |w| % 8 == 0
    ensures |data| == |w| / 8
  {
    if w == [] then [] else [ByteOf(w[..8])] + BytesOf(w[8..])
  }

  lemma {:induction false} ToFromBits(w: Word)
    ensures ToBits(FromBits(w), |w|) == w
  {
    if w != [] {
      ToFromBits(w[1..]);
      assert FromBits(w) / 2 == FromBits(w[1..]);
    }
  }

  lemma {:induction false} FromToBits(n: nat, width: nat)
    requires n < Pow2(width)
    ensures FromBits(ToBits(n, width)) == n
  {
    if width > 0 {
      FromToBits(n / 2, width - 1);
      assert ToBits(n, width)[1..] == ToBits(n / 2, width - 1);
    }
  }

  lemma {:induction false} ConstantIsToBits(n: nat, width: nat)
    ensures Constant(n, width) == ToBits(n, width)
  {
    if width > 0 {
      ConstantIsToBits(n / 2, width - 1);
    }
  }

  /** A constant is the word of the number it is written as. */
  lemma {:induction false} ConstantValue(n: nat, width: nat)
    requires n < Pow2(width)
    ensures FromBits(Constant(n, width)) == n
  {
    ConstantIsToBits(n, width);
    FromToBits(n, width);
  }

  // ----- which bit is which

  lemma {:induction false} DivideWithRest(n: nat, d: nat)
    requires d > 0
    ensures n == d * (n / d) + n % d && n % d < d
  {
  }

  lemma {:induction false} DivideByDouble(n: nat, d: nat)
    requires d > 0
    ensures n / (2 * d) == n / 2 / d
  {
    var half := n / 2;
    var q, t, r := half / d, half % d, n - 2 * half;
    DivideWithRest(half, d);
    MulRegroup(d, q);
    QuotientIs(n, 2 * d, q, 2 * t + r);
  }

  lemma {:induction false} DivideByPow2(n: nat, i: nat)
    requires i > 0
    ensures n / Pow2(i) == n / 2 / Pow2(i - 1)
  {
    DivideByDouble(n, Pow2(i - 1));
  }

  lemma {:induction false} MulUpTo(a: nat, t: int, u: int)
    requires t <= u
    ensures a * t <= a * u
  {
  }

  lemma {:induction false} QuotientIs(n: nat, d: nat, q: nat, r: nat)
    requires d > 0 && n == d * q + r && r < d
    ensures n / d == q
  {
    var k := n / d;
    DivideWithRest(n, d);
    if k < q {
      MulUpTo(d, k + 1, q);
    } else if k > q {
      MulUpTo(d, q + 1, k);
    }
  }

  /** Bit `i` of the word of a number is its binary digit `i`. */
  lemma {:induction false} ToBitsDigit(n: nat, width: nat, i: nat)
    requires i < width
    ensures ToBits(n, width)[i] == (n / Pow2(i) % 2 == 1)
    decreases i
  {
    if i == 0 {
      assert Pow2(0) == 1;
    } else {
      hide Pow2;
      ToBitsDigit(n / 2, width - 1, i - 1);
      DivideByPow2(n, i);
    }
  }

  /** Bit `i` of a byte is its binary digit `i`. */
  lemma {:induction false} ByteBitsDigits(b: Byte)
    ensures forall i :: 0 <= i < 8 ==> ByteBits(b)[i] == (b as int / Pow2(i) % 2 == 1)
  {
    hide Pow2, ToBits;
    forall i | 0 <= i < 8 ensures ByteBits(b)[i] == (b as int / Pow2(i) % 2 == 1) {
      ToBitsDigit(b as int, 8, i);
    }
  }

  /** Digit `i` of the number a word stands for is its bit `i`. */
  lemma {:induction false} FromBitsDigit(w: Word, i: nat)
    requires i < |w|
    ensures FromBits(w) / Pow2(i) % 2 == 1 <==> w[i]
    decreases i
  {
    if i > 0 {
      FromBitsDigit(w[1..], i - 1);
      DivideByPow2(FromBits(w), i);
      assert FromBits(w) / 2 == FromBits(w[1..]);
    }
  }

  lemma {:induction false} ByteOfNumber(w: Word)
    requires |w| == 8
    ensures ByteOf(w) as int == FromBits(w)
    ensures forall i :: 0 <= i < 8 ==> (ByteOf(w) as int / Pow2(i) % 2 == 1 <==> w[i])
  {
    hide Pow2, FromBits;
    forall i | 0 <= i < 8 ensures FromBits(w) / Pow2(i) % 2 == 1 <==> w[i] {
      FromBitsDigit(w, i);
    }
  }

  lemma {:induction false} FromBitsCons(w: Word)
    requires |w| > 0
    ensures FromBits(w) == (if w[0] then 1 else 0) + 2 * FromBits(w[1..])
  {
  }

  lemma {:induction false} FromBitsConcat(a: Word, b: Word)
    ensures FromBits(a + b) == FromBits(a) + Pow2(|a|) * FromBits(b)
    decreases |a|
  {
    if a == [] {
      assert a + b == b;
    } else {
      FromBitsCons(a);
      FromBitsCons(a + b);
      PowCons(|a|, FromBits(b));
      hide FromBits, Pow2;
      assert (a + b)[1..] == a[1..] + b;
      FromBitsConcat(a[1..], b);
    }
  }

  lemma {:induction false} PowCons(k: nat, n: nat)
    requires k > 0
    ensures Pow2(k) * n == 2 * (Pow2(k - 1) * n)
  {
  }

  lemma {:induction false} MulRegroup(p: nat, n: nat)
    ensures 2 * (p * n) == 2 * p * n
  {
  }

  lemma {:induction false} PowOf8()
    ensures Pow2(8) == 0x100
  {
    assert Pow2(4) == 16;
  }

  /** The bits of a byte string read as a number: little-endian. */
  lemma {:induction false} BitsOfNumber(data: seq<Byte>)
    ensures data == [] ==> FromBits(BitsOf(data)) == 0
    ensures data != [] ==> FromBits(BitsOf(data)) == data[0] as int + 0x100 * FromBits(BitsOf(data[1..]))
  {
    if data != [] {
      PowOf8();
      FromToBits(data[0] as int, 8);
      FromBitsConcat(ByteBits(data[0]), BitsOf(data[1..]));
    }
  }

  /** A right shift halves. */
  lemma {:induction false} ShiftRightHalves(w: Word)
    requires |w| > 0
    ensures FromBits(ShiftRight(w)) == FromBits(w) / 2
  {
    FromBitsConcat(w[1..], [false]);
    assert FromBits([false]) == 0;
    assert FromBits(w) / 2 == FromBits(w[1..]);
  }

  /** A left shift doubles, modulo 2^width. */
  lemma {:induction false} ShiftLeftDoubles(w: Word)
    requires |w| > 0
    ensures FromBits(ShiftLeft(w)) == 2 * FromBits(w) % Pow2(|w|)
  {
    var n := |w| - 1;
    var low, top := w[..n], FromBits(w[n..]);
    assert w == low + w[n..] && ShiftLeft(w) == [false] + low;
    FromBitsConcat(low, w[n..]);
    assert ([false] + low)[1..] == low;
    MulRegroup(Pow2(n), top);
    QuotientAndRest(2 * FromBits(w), Pow2(|w|), top, 2 * FromBits(low));
  }

  lemma {:induction false} QuotientAndRest(n: nat, d: nat, q: nat, r: nat)
    requires d > 0 && n == d * q + r && r < d
    ensures n % d == r
  {
    QuotientIs(n, d, q, r);
  }

  lemma {:induction false} ByteRoundTrip(b: Byte)
    ensures ByteOf(ByteBits(b)) == b
  {
    assert Pow2(8) == 256;
    FromToBits(b as int, 8);
  }

  lemma {:induction false} BitsRoundTrip(w: Word)
    requires |w| == 8
    ensures ByteBits(ByteOf(w)) == w
  {
    ToFromBits(w);
  }

  lemma {:induction false} BytesOfBitsOf(data: seq<Byte>)
    ensures BytesOf(BitsOf(data)) == data
  {
    if data != [] {
      ByteRoundTrip(data[0]);
      BytesOfBitsOf(data[1..]);
      var w := BitsOf(data);
      assert w[..8] == ByteBits(data[0]) && w[8..] == BitsOf(data[1..]);
    }
  }

  lemma {:induction false} BitsOfBytesOf(w: Word)
    requires |w| % 8 == 0
    ensures BitsOf(BytesOf(w)) == w
  {
    if w != [] {
      hide ByteBits, ByteOf;
      BitsRoundTrip(w[..8]);
      BitsOfBytesOf(w[8..]);
      assert BytesOf(w)[0] == ByteOf(w[..8]) && BytesOf(w)[1..] == BytesOf(w[8..]);
      assert w == w[..8] + w[8..];
    }
  }

  lemma {:induction false} ConcatAssoc(a: Word, b: Word, c: Word)
    ensures a + b + c == a + (b + c)
  {
  }

  lemma {:induction false} ReverseAt(a: Word)
    ensures forall i :: 0 <= i < |a| ==> Reverse(a)[i] == a[|a| - 1 - i]
  {
  }

  lemma {:induction false} ReverseConcat(a: Word, b: Word)
    ensures Reverse(a + b) == Reverse(b) + Reverse(a)
  {
  }

  lemma {:induction false} ReverseTwice(a: Word)
    ensures Reverse(Reverse(a)) == a
  {
  }

  lemma {:induction false} ReverseXor(a: Word, b: Word)
    requires |a| == |b|
    ensures Reverse(Xor(a, b)) == Xor(Reverse(a), Reverse(b))
  {
  }

  lemma {:induction false} ReverseZeros(n: nat)
    ensures Reverse(Zeros(n)) == Zeros(n)
  {
  }

  lemma {:induction false} ReverseLast(a: Word)
    requires |a| > 0
    ensures Reverse(a) == [a[|a| - 1]] + Reverse(a[..|a| - 1])
  {
  }

  lemma {:induction false} ReverseShiftLeft(a: Word)
    requires |a| > 0
    ensures Reverse(ShiftLeft(a)) == ShiftRight(Reverse(a))
    ensures Reverse(a)[0] == a[|a| - 1]
  {
  }

  lemma {:induction false} XorZeros(a: Word)
    ensures Xor(a, Zeros(|a|)) == a && Xor(Zeros(|a|), a) == a
  {
  }

  /** Two words differ exactly when their difference is not zero. */
  lemma {:induction false} XorIsZero(a: Word, b: Word)
    requires |a| == |b|
    ensures Xor(a, b) == Zeros(|a|) <==> a == b
  {
  }

  lemma {:induction false} XorTwice(a: Word, b: Word)
    requires |a| == |b|
    ensures Xor(Xor(a, b), b) == a
  {
  }

  lemma {:induction false} XorConcat(a: Word, b: Word, c: Word, d: Word)
    requires |a| == |b| && |c| == |d|
    ensures Xor(a + c, b + d) == Xor(a, b) + Xor(c, d)
  {
  }

  lemma {:induction false} XorAssoc(a: Word, b: Word, c: Word)
    requires |a| == |b| == |c|
    ensures Xor(Xor(a, b), c) == Xor(a, Xor(b, c))
  {
  }

  lemma {:induction false} XorCommutes(a: Word, b: Word)
    requires |a| == |b|
    ensures Xor(a, b) == Xor(b, a)
  {
  }

  lemma {:induction false} XorCancels(a: Word, b: Word, c: Word)
    requires |a| == |b| == |c| && Xor(a, b) == Xor(a, c)
    ensures b == c
  {
  }

  lemma {:induction false} XorCons(x: bool, a: Word, y: bool, b: Word)
    requires |a| == |b|
    ensures Xor([x] + a, [y] + b) == [x != y] + Xor(a, b)
  {
  }
}

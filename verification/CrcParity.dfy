/** Errors that flip an odd number of bits: which generators are sure to show them. */
module CrcParity {
  import opened Bits
  import opened CrcSpec
  import opened CrcTheory
  import opened CrcLaws

  /** The number of set bits. */
  function Weight(w: Word): nat {
    if w == [] then 0 else (if w[0] then 1 else 0) + Weight(w[1..])
  }

  predicate OddWeight(w: Word) {
    Weight(w) % 2 == 1
  }

  lemma {:induction false} OddUnfold(w: Word)
    ensures OddWeight(w) == (w != [] && w[0] != OddWeight(w[1..]))
  {
  }

  lemma {:induction false} OddConcat(a: Word, b: Word)
    ensures OddWeight(a + b) == (OddWeight(a) != OddWeight(b))
    decreases |a|
  {
    hide OddWeight;
    OddUnfold(a);
    if a == [] {
      assert a + b == b;
    } else {
      OddUnfold(a + b);
      assert (a + b)[1..] == a[1..] + b;
      OddConcat(a[1..], b);
    }
  }

  lemma {:induction false} OddBit(x: bool)
    ensures OddWeight([x]) == x
  {
    hide OddWeight;
    OddUnfold([x]);
    OddUnfold([]);
    assert [x][1..] == [];
  }

  lemma {:induction false} OddXor(a: Word, b: Word)
    requires |a| == |b|
    ensures OddWeight(Xor(a, b)) == (OddWeight(a) != OddWeight(b))
    decreases |a|
  {
    hide OddWeight;
    OddUnfold(a);
    OddUnfold(b);
    OddUnfold(Xor(a, b));
    if a != [] {
      assert Xor(a, b)[1..] == Xor(a[1..], b[1..]);
      OddXor(a[1..], b[1..]);
    }
  }

  lemma {:induction false} OddZeros(n: nat)
    ensures !OddWeight(Zeros(n))
    decreases n
  {
    hide OddWeight;
    OddUnfold(Zeros(n));
    if n > 0 {
      assert Zeros(n)[1..] == Zeros(n - 1);
      OddZeros(n - 1);
    }
  }

  lemma {:induction false} OddReverse(a: Word)
    ensures OddWeight(Reverse(a)) == OddWeight(a)
    decreases |a|
  {
    hide OddWeight;
    if a == [] {
      assert Reverse(a) == a;
    } else {
      assert a == [a[0]] + a[1..] && Reverse([a[0]]) == [a[0]];
      ReverseConcat([a[0]], a[1..]);
      OddConcat([a[0]], a[1..]);
      OddConcat(Reverse(a[1..]), [a[0]]);
      OddReverse(a[1..]);
    }
  }

  lemma {:induction false} OddOriented(p: Parameters, r: Word)
    ensures OddWeight(Oriented(p, r)) == OddWeight(r)
  {
    hide OddWeight;
    OddReverse(r);
  }

  // ----- a generator with an even number of terms keeps count

  /** A step keeps the parity of the register when the generator, leading term
      included, has an even number of terms. */
  lemma {:induction false} StepKeepsParity(q: Word, r: Word)
    requires |r| == |q| > 0 && OddWeight(q)
    ensures OddWeight(ReflectedStep(q, r)) == OddWeight(r)
  {
    hide OddWeight, Xor;
    OddUnfold(r);
    OddConcat(r[1..], [false]);
    OddBit(false);
    OddXor(ShiftRight(r), q);
  }

  lemma {:induction false} FeedParity(q: Word, d: Word, r: Word)
    requires |r| == |q| > 0 && OddWeight(q)
    ensures OddWeight(Feed(q, d, r)) == (OddWeight(d) != OddWeight(r))
    decreases |d|
  {
    hide OddWeight, ReflectedStep;
    OddUnfold(d);
    if d != [] {
      var loaded := [r[0] != d[0]] + r[1..];
      OddUnfold(r);
      OddUnfold(loaded);
      assert loaded[1..] == r[1..];
      StepKeepsParity(q, loaded);
      FeedParity(q, d[1..], ReflectedStep(q, loaded));
    }
  }

  /** The remainder has the parity of the data and the start value together. */
  lemma {:induction false} RemainderParity(p: Parameters, data: seq<Byte>, r: Word)
    requires p.Valid() && p.IsRegister(r) && OddWeight(p.polynomial)
    ensures OddWeight(Remainder(p, data, r)) == (OddWeight(Transmitted(p, data)) != OddWeight(r))
  {
    hide OddWeight, Remainder, Transmitted, Feed, Oriented;
    RemainderIsSerial(p, data, r);
    OddReverse(p.polynomial);
    FeedParity(LowTerms(p), Transmitted(p, data), Oriented(p, r));
    OddOriented(p, r);
    OddOriented(p, Remainder(p, data, r));
  }

  // ----- any other generator misses its own pattern

  /** Two byte strings of one length that differ in an odd number of transmitted bits. */
  ghost predicate OddlyDiffer(p: Parameters, a: seq<Byte>, b: seq<Byte>) {
    |a| == |b| && OddWeight(Xor(Transmitted(p, a), Transmitted(p, b)))
  }

  ghost predicate DetectsOddErrors(p: Parameters)
    requires p.Valid()
  {
    forall a: seq<Byte>, b: seq<Byte>, r: Word ::
      p.IsRegister(r) && OddlyDiffer(p, a, b) ==> Remainder(p, a, r) != Remainder(p, b, r)
  }

  lemma {:induction false} OddErrorSeen(p: Parameters, a: seq<Byte>, b: seq<Byte>, r: Word)
    requires p.Valid() && p.IsRegister(r) && OddWeight(p.polynomial) && OddlyDiffer(p, a, b)
    ensures Remainder(p, a, r) != Remainder(p, b, r)
  {
    hide OddWeight, Remainder, Transmitted;
    RemainderParity(p, a, r);
    RemainderParity(p, b, r);
    OddXor(Transmitted(p, a), Transmitted(p, b));
  }

  /** The bits of the generator, its leading term first. */
  function Generator(q: Word): (g: Word)
    ensures |g| == |q| + 1
  {
    [true] + q
  }

  /** Fed its own generator, the zero register ends at zero. */
  lemma {:induction false} GeneratorVanishes(q: Word)
    requires |q| > 0
    ensures Feed(q, Generator(q), Zeros(|q|)) == Zeros(|q|)
  {
    hide Spin;
    var w := |q|;
    GeneratorEnters(q);
    assert Generator(q)[1..] == q;
    FrontLoad(q, q, q);
    assert q + Zeros(0) == q;
    XorIsZero(q, q);
    SpinOfZeros(q, w);
    hide Feed, ReflectedStep;
    FeedConcat(q, [true], q, Zeros(w));
  }

  lemma {:induction false} GeneratorEnters(q: Word)
    requires |q| > 0
    ensures Feed(q, [true], Zeros(|q|)) == q
  {
    var w := |q|;
    var loaded := [true] + Zeros(w)[1..];
    assert ShiftRight(loaded) == Zeros(w);
    XorZeros(q);
    assert ReflectedStep(q, loaded) == q;
    assert [true][1..] == [];
  }

  /** A pattern the zero register forgets is never seen. */
  lemma {:induction false} ForgottenUnseen(q: Word, e: Word, pad: nat, s: Word)
    requires |s| == |q| > 0 && Feed(q, e, Zeros(|q|)) == Zeros(|q|)
    ensures Feed(q, e + Zeros(pad), s) == Feed(q, Zeros(|e| + pad), s)
  {
    hide Feed, Xor, Spin;
    var error, nothing := e + Zeros(pad), Zeros(|e| + pad);
    FeedConcat(q, e, Zeros(pad), Zeros(|q|));
    FeedZeros(q, Zeros(|q|), pad);
    SpinOfZeros(q, pad);
    XorZeros(s);
    XorZeros(error);
    FeedLinear(q, nothing, error, s, Zeros(|q|));
    XorZeros(Feed(q, nothing, s));
  }

  /** A generator with an odd number of terms is itself an error of odd weight
      that is never seen, whatever the start value. */
  lemma {:induction false} EvenTermsNeeded(p: Parameters) returns (a: seq<Byte>, b: seq<Byte>)
    requires p.Valid() && !OddWeight(p.polynomial)
    ensures OddlyDiffer(p, a, b)
    ensures forall r: Word :: p.IsRegister(r) ==> Remainder(p, a, r) == Remainder(p, b, r)
  {
    hide OddWeight, Feed, Remainder, Transmitted, Oriented;
    var q := LowTerms(p);
    var g := Generator(q);
    var pad := PadToBytes(|g|);
    a := AnyBitsTransmitted(p, g + Zeros(pad));
    b := AnyBitsTransmitted(p, Zeros(|g| + pad));
    GeneratorIsOdd(p, pad);
    GeneratorVanishes(q);
    forall r: Word | p.IsRegister(r) ensures Remainder(p, a, r) == Remainder(p, b, r) {
      RemainderIsSerial(p, a, r);
      RemainderIsSerial(p, b, r);
      ForgottenUnseen(q, g, pad, Oriented(p, r));
      OrientedInjective(p, Remainder(p, a, r), Remainder(p, b, r));
    }
  }

  lemma {:induction false} GeneratorIsOdd(p: Parameters, pad: nat)
    requires !OddWeight(p.polynomial)
    ensures
      var g := Generator(LowTerms(p));
      OddWeight(Xor(g + Zeros(pad), Zeros(|g| + pad)))
  {
    hide OddWeight, Xor;
    var q := LowTerms(p);
    var g := Generator(q);
    XorZeros(g + Zeros(pad));
    OddConcat(g, Zeros(pad));
    OddZeros(pad);
    OddConcat([true], q);
    OddBit(true);
    OddReverse(p.polynomial);
  }

  /** All errors of an odd number of bits are detected exactly when the generator
      has an even number of terms. */
  lemma {:induction false} OddDetectionExact(p: Parameters)
    requires p.Valid()
    ensures DetectsOddErrors(p) <==> OddWeight(p.polynomial)
  {
    hide OddWeight, Remainder, OddlyDiffer;
    if OddWeight(p.polynomial) {
      forall a: seq<Byte>, b: seq<Byte>, r: Word | p.IsRegister(r) && OddlyDiffer(p, a, b)
        ensures Remainder(p, a, r) != Remainder(p, b, r)
      {
        OddErrorSeen(p, a, b, r);
      }
    } else {
      var a, b := EvenTermsNeeded(p);
      assert p.IsRegister(p.initialValue) && Remainder(p, a, p.initialValue) == Remainder(p, b, p.initialValue);
    }
  }

  // ----- the two generators in use

  /** The number of ones in the binary form of a number. */
  function Ones(n: nat): nat {
    if n == 0 then 0 else n % 2 + Ones(n / 2)
  }

  lemma {:induction false} ConstantWeight(n: nat, width: nat)
    requires n < Pow2(width)
    ensures Weight(Constant(n, width)) == Ones(n)
    decreases width
  {
    ConstantIsToBits(n, width);
    if width > 0 {
      ConstantWeight(n / 2, width - 1);
      ConstantIsToBits(n / 2, width - 1);
      assert ToBits(n, width)[1..] == ToBits(n / 2, width - 1);
    }
  }

  lemma {:induction false} OnesDoubled(high: nat, bit: nat)
    requires bit < 2
    ensures Ones(2 * high + bit) == Ones(high) + bit
  {
  }

  /** Four more binary digits behind a number. */
  lemma {:induction false} OnesDigits(high: nat, a: nat, b: nat, c: nat, d: nat)
    requires a < 2 && b < 2 && c < 2 && d < 2
    ensures Ones(16 * high + 8 * a + 4 * b + 2 * c + d) == Ones(high) + a + b + c + d
  {
    hide Ones;
    OnesDoubled(high, a);
    OnesDoubled(2 * high + a, b);
    OnesDoubled(4 * high + 2 * a + b, c);
    OnesDoubled(8 * high + 4 * a + 2 * b + c, d);
  }

  lemma {:induction false} OnesOfNothing()
    ensures Ones(0) == 0
  {
  }

  lemma {:induction false} OnesInUse()
    ensures Ones(0x8005) == 3 && Ones(0x04C1_1DB7) == 14
  {
    hide Ones;
    OnesOfNothing();
    OnesDigits(0, 1, 0, 0, 0);
    OnesDigits(0x8, 0, 0, 0, 0);
    OnesDigits(0x80, 0, 0, 0, 0);
    OnesDigits(0x800, 0, 1, 0, 1);
    OnesDigits(0, 0, 1, 0, 0);
    OnesDigits(0x4, 1, 1, 0, 0);
    OnesDigits(0x4C, 0, 0, 0, 1);
    OnesDigits(0x4C1, 0, 0, 0, 1);
    OnesDigits(0x4C11, 1, 1, 0, 1);
    OnesDigits(0x4_C11D, 1, 0, 1, 1);
    OnesDigits(0x4C_11DB, 0, 1, 1, 1);
  }

  /** CRC-16/ARC has four terms and sees every odd error; CRC-32 has fifteen and does not. */
  lemma {:induction false} TermsInUse()
    ensures Weight(Crc16Arc().polynomial) == 3 && Weight(Crc32().polynomial) == 14
  {
    hide Weight, Constant;
    Powers();
    hide Pow2, Ones;
    ConstantWeight(0x8005, 16);
    ConstantWeight(0x04C1_1DB7, 32);
    OnesInUse();
  }

  lemma {:induction false} OddDetectionInUse()
    ensures DetectsOddErrors(Crc16Arc()) && !DetectsOddErrors(Crc32())
  {
    hide DetectsOddErrors, Weight;
    TermsInUse();
    OddDetectionExact(Crc16Arc());
    OddDetectionExact(Crc32());
  }
}

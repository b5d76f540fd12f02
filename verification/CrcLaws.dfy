/** What the CRC code promises, stated for every parameter set of at least one byte. */
module CrcLaws {
  import opened Bits
  import opened CrcSpec
  import opened CrcTheory
  import opened CrcDivision

  /** A register read from the end where input enters. */
  function Oriented(p: Parameters, r: Word): (s: Word)
    ensures |s| == |r|
  {
    if p.reflectInput then r else Reverse(r)
  }

  /** The bits of the data in the order the loop consumes them. */
  function Transmitted(p: Parameters, data: seq<Byte>): (d: Word)
    ensures |d| == 8 * |data|
  {
    if data == [] then [] else Oriented(p, ByteBits(data[0])) + Transmitted(p, data[1..])
  }

  lemma {:induction false} SentByteDigit(p: Parameters, b: Byte, i: nat)
    requires i < 8
    ensures Oriented(p, ByteBits(b))[i] == (b as int / Pow2(if p.reflectInput then i else 7 - i) % 2 == 1)
  {
    ByteBitsDigits(b);
    hide ByteBits, Pow2, Reverse;
    ReverseAt(ByteBits(b));
  }

  /** The bits sent are the binary digits of the bytes: of each byte the least significant
      one first when the input is reflected, else the most significant one. */
  lemma {:induction false} TransmittedDigit(p: Parameters, data: seq<Byte>, k: nat, i: nat)
    requires k < |data| && i < 8
    ensures Transmitted(p, data)[8 * k + i]
      == (data[k] as int / Pow2(if p.reflectInput then i else 7 - i) % 2 == 1)
    decreases |data|
  {
    hide ByteBits, Oriented, Pow2;
    if k == 0 {
      SentByteDigit(p, data[0], i);
    } else {
      TransmittedDigit(p, data[1..], k - 1, i);
    }
  }

  /** The polynomial below its leading term, highest power first. */
  function LowTerms(p: Parameters): (q: Word)
    ensures |q| == p.Width()
  {
    Reverse(p.polynomial)
  }

  lemma {:induction false} StepOriented(p: Parameters, r: Word)
    requires p.Valid() && p.IsRegister(r)
    ensures Oriented(p, Step(p, r)) == ReflectedStep(LowTerms(p), Oriented(p, r))
  {
    if !p.reflectInput {
      ReverseShiftLeft(r);
      ReverseXor(ShiftLeft(r), p.polynomial);
    }
  }

  lemma {:induction false} StepsOriented(p: Parameters, r: Word, n: nat)
    requires p.Valid() && p.IsRegister(r)
    ensures Oriented(p, Steps(p, r, n)) == Spin(LowTerms(p), Oriented(p, r), n)
    decreases n
  {
    hide Step, Oriented, ReflectedStep, LowTerms;
    if n > 0 {
      StepOriented(p, r);
      StepsOriented(p, Step(p, r), n - 1);
    }
  }

  lemma {:induction false} PlaceOriented(p: Parameters, b: Byte)
    requires p.Valid()
    ensures Oriented(p, Place(p, b)) == Oriented(p, ByteBits(b)) + Zeros(p.Width() - 8)
  {
  }

  lemma {:induction false} OrientedXor(p: Parameters, a: Word, b: Word)
    requires |a| == |b|
    ensures Oriented(p, Xor(a, b)) == Xor(Oriented(p, a), Oriented(p, b))
  {
  }

  lemma {:induction false} ByteStepIsSerial(p: Parameters, r: Word, b: Byte)
    requires p.Valid() && p.IsRegister(r)
    ensures Oriented(p, ByteStep(p, r, b)) == Feed(LowTerms(p), Oriented(p, ByteBits(b)), Oriented(p, r))
  {
    StepsOriented(p, Xor(r, Place(p, b)), 8);
    PlaceOriented(p, b);
    OrientedXor(p, r, Place(p, b));
    FrontLoad(LowTerms(p), Oriented(p, ByteBits(b)), Oriented(p, r));
  }

  /** The byte loop, in either direction, is the bit-serial divider. */
  lemma {:induction false} RemainderIsSerial(p: Parameters, data: seq<Byte>, r: Word)
    requires p.Valid() && p.IsRegister(r)
    ensures Oriented(p, Remainder(p, data, r)) == Feed(LowTerms(p), Transmitted(p, data), Oriented(p, r))
    decreases |data|
  {
    if data != [] {
      var d := Oriented(p, ByteBits(data[0]));
      ByteStepIsSerial(p, r, data[0]);
      RemainderIsSerial(p, data[1..], ByteStep(p, r, data[0]));
      FeedConcat(LowTerms(p), d, Transmitted(p, data[1..]), Oriented(p, r));
    }
  }

  lemma {:induction false} OrientedInjective(p: Parameters, r: Word, s: Word)
    requires |r| == |s|
    ensures Oriented(p, r) == Oriented(p, s) <==> r == s
  {
    ReverseTwice(r);
    ReverseTwice(s);
  }

  /** The CRC register is the remainder of the message, times x^width, divided by the generator. */
  lemma {:induction false} RemainderDivides(p: Parameters, data: seq<Byte>, r: Word, s: Word)
    requires p.Valid() && p.IsRegister(r) && p.IsRegister(s)
    ensures
      var q := LowTerms(p);
      IsRemainder([true] + q, Dividend(q, Transmitted(p, data), Oriented(p, r)), Oriented(p, s))
      <==> s == Remainder(p, data, r)
  {
    RemainderIsSerial(p, data, r);
    FeedIsTheRemainder(LowTerms(p), Transmitted(p, data), Oriented(p, r), Oriented(p, s));
    OrientedInjective(p, s, Remainder(p, data, r));
  }

  // ----- the two directions mirror each other

  function FlipByte(b: Byte): Byte {
    ByteOf(Reverse(ByteBits(b)))
  }

  function FlipBytes(data: seq<Byte>): (flipped: seq<Byte>)
    ensures |flipped| == |data|
  {
    if data == [] then [] else [FlipByte(data[0])] + FlipBytes(data[1..])
  }

  lemma {:induction false} FlippedBytesAreReversed(p: Parameters, m: Parameters, data: seq<Byte>)
    requires p.reflectInput && !m.reflectInput
    ensures Transmitted(m, FlipBytes(data)) == Transmitted(p, data)
    decreases |data|
  {
    if data != [] {
      var w := Reverse(ByteBits(data[0]));
      BitsRoundTrip(w);
      ReverseTwice(ByteBits(data[0]));
      FlippedBytesAreReversed(p, m, data[1..]);
      assert FlipBytes(data)[1..] == FlipBytes(data[1..]);
    }
  }

  lemma {:induction false} MirrorDuality(p: Parameters, data: seq<Byte>, r: Word)
    requires p.Valid() && p.reflectInput && p.IsRegister(r)
    ensures Remainder(p, data, r) == Reverse(Remainder(p.(reflectInput := false), FlipBytes(data), Reverse(r)))
  {
    var m := p.(reflectInput := false);
    RemainderIsSerial(p, data, r);
    RemainderIsSerial(m, FlipBytes(data), Reverse(r));
    FlippedBytesAreReversed(p, m, data);
    ReverseTwice(r);
  }

  // ----- the two parameter sets in use

  lemma {:induction false} Powers()
    ensures Pow2(8) == 0x100 && Pow2(16) == 0x1_0000 && Pow2(32) == 0x1_0000_0000
  {
    assert Pow2(8) == 0x100;
    assert Pow2(16) == 0x1_0000;
    assert Pow2(24) == 0x100_0000;
  }

  lemma {:induction false} ArcParameters()
    ensures FromBits(Crc16Arc().polynomial) == 0x8005
    ensures FromBits(Crc16Arc().initialValue) == 0 && FromBits(Crc16Arc().finalXOR) == 0
  {
    Powers();
    ConstantValue(0x8005, 16);
    ZerosValue(16);
  }

  lemma {:induction false} Crc32Parameters()
    ensures FromBits(Crc32().polynomial) == 0x04C1_1DB7
    ensures FromBits(Crc32().initialValue) == 0xFFFF_FFFF == FromBits(Crc32().finalXOR)
  {
    Powers();
    ConstantValue(0x04C1_1DB7, 32);
    ConstantValue(0xFFFF_FFFF, 32);
  }

  lemma {:induction false} UnitTerms()
    ensures Crc16Arc().polynomial[0] && Crc32().polynomial[0]
  {
  }

  lemma {:induction false} ZerosValue(n: nat)
    ensures FromBits(Zeros(n)) == 0
    decreases n
  {
    if n > 0 {
      ZerosValue(n - 1);
      assert Zeros(n)[1..] == Zeros(n - 1);
    }
  }

  // ----- multi-part calculation

  lemma {:induction false} FinalizeInverse(p: Parameters, x: Word)
    requires p.Valid() && p.IsRegister(x)
    ensures UndoFinalize(p, Finalize(p, x)) == x
    ensures Finalize(p, UndoFinalize(p, x)) == x
  {
    var y := if p.reflectInput != p.reflectOutput then Reverse(x) else x;
    XorTwice(y, p.finalXOR);
    XorTwice(x, p.finalXOR);
    ReverseTwice(x);
    ReverseTwice(Xor(x, p.finalXOR));
  }

  /** `w` is the remainder of the data, from the initial value, by long division. */
  ghost predicate IsDataRemainder(p: Parameters, data: seq<Byte>, w: Word)
    requires p.Valid() && p.IsRegister(w)
  {
    var q := LowTerms(p);
    IsRemainder([true] + q, Dividend(q, Transmitted(p, data), Oriented(p, p.initialValue)), Oriented(p, w))
  }

  /** `c` is `w`, turned around when input and output order differ, with the bits of the
      final XOR flipped. */
  ghost predicate Finishes(p: Parameters, w: Word, c: Word)
    requires p.Valid() && p.IsRegister(w) && p.IsRegister(c)
  {
    forall i :: 0 <= i < p.Width() ==>
      c[i] == (w[if p.reflectInput != p.reflectOutput then p.Width() - 1 - i else i] != p.finalXOR[i])
  }

  lemma {:induction false} FinalizeFinishes(p: Parameters, w: Word, c: Word)
    requires p.Valid() && p.IsRegister(w) && p.IsRegister(c)
    ensures Finishes(p, w, c) <==> c == Finalize(p, w)
  {
    ReverseAt(w);
    var x := if p.reflectInput != p.reflectOutput then Reverse(w) else w;
    assert forall i :: 0 <= i < p.Width() ==> Finalize(p, w)[i] == (x[i] != p.finalXOR[i]);
    hide Finalize, Xor;
    if Finishes(p, w, c) {
      assert forall i :: 0 <= i < p.Width() ==> c[i] == Finalize(p, w)[i];
    }
  }

  /** The finished checksum: a word is the checksum of the data exactly when it comes, bit
      by bit, from the remainder of long division started at the initial value. */
  lemma {:induction false} ChecksumDivides(p: Parameters, data: seq<Byte>, c: Word)
    requires p.Valid() && p.IsRegister(c)
    ensures c == Checksum(p, data) <==>
      exists w: Word :: p.IsRegister(w) && IsDataRemainder(p, data, w) && Finishes(p, w, c)
  {
    hide Finalize, Remainder, Finishes, IsRemainder, Dividend, Transmitted, LowTerms, Oriented;
    var r := Remainder(p, data, p.initialValue);
    RemainderDivides(p, data, p.initialValue, r);
    FinalizeFinishes(p, r, c);
    if w: Word :| p.IsRegister(w) && IsDataRemainder(p, data, w) && Finishes(p, w, c) {
      RemainderDivides(p, data, p.initialValue, w);
    }
    assert IsDataRemainder(p, data, r);
  }

  lemma {:induction false} RemainderConcat(p: Parameters, a: seq<Byte>, b: seq<Byte>, r: Word)
    requires p.Valid() && p.IsRegister(r)
    ensures Remainder(p, a + b, r) == Remainder(p, b, Remainder(p, a, r))
    decreases |a|
  {
    if a == [] {
      assert a + b == b;
    } else {
      assert (a + b)[1..] == a[1..] + b;
      RemainderConcat(p, a[1..], b, ByteStep(p, r, a[0]));
    }
  }

  lemma {:induction false} MultiPart(p: Parameters, a: seq<Byte>, b: seq<Byte>)
    requires p.Valid()
    ensures Checksum(p, a + b) == ChecksumFrom(p, b, Checksum(p, a))
  {
    RemainderConcat(p, a, b, p.initialValue);
    FinalizeInverse(p, Remainder(p, a, p.initialValue));
  }

  // ----- the lookup table

  /** One byte of the table-driven loop, given the table of single-byte remainders. */
  function TableStep(p: Parameters, table: seq<Word>, r: Word, b: Byte): (s: Word)
    requires p.Valid() && p.IsRegister(r)
    requires |table| == 256 && forall i: Byte {:trigger table[i as int]} :: |table[i as int]| == p.Width()
    ensures p.IsRegister(s)
  {
    var index := ByteOf(Xor(Leading(p, r), ByteBits(b)));
    Xor(ByteShift(p, r), table[index as int])
  }

  ghost predicate IsTable(p: Parameters, table: seq<Word>)
    requires p.Valid()
  {
    |table| == 256
    && forall i: Byte {:trigger table[i as int]} :: table[i as int] == Remainder(p, [i], Zeros(p.Width()))
  }

  lemma {:induction false} SingleByteRemainder(p: Parameters, i: Byte)
    requires p.Valid()
    ensures Remainder(p, [i], Zeros(p.Width())) == Steps(p, Place(p, i), 8)
  {
    XorZeros(Place(p, i));
    assert [i][1..] == [];
  }

  /** Splitting the register into the byte about to leave it and the rest. */
  lemma {:induction false} SpinSplit(q: Word, x: Word)
    requires |x| == |q| >= 8
    ensures Spin(q, x, 8) == Xor(x[8..] + Zeros(8), Spin(q, x[..8] + Zeros(|q| - 8), 8))
  {
    var near, far := x[..8] + Zeros(|q| - 8), Zeros(8) + x[8..];
    XorConcat(Zeros(8), x[..8], x[8..], Zeros(|q| - 8));
    XorZeros(x[..8]);
    XorZeros(x[8..]);
    assert x == x[..8] + x[8..];
    SpinLinear(q, far, near, 8);
    SpinShifts(q, far, 8);
    assert far[8..] == x[8..];
  }

  /** The byte at the end of the register where input enters. */
  function Leading(p: Parameters, r: Word): (w: Word)
    requires p.Valid() && p.IsRegister(r)
    ensures |w| == 8
  {
    if p.reflectInput then r[..8] else r[p.Width() - 8..]
  }

  /** The register shifted by a whole byte. */
  function ByteShift(p: Parameters, r: Word): (w: Word)
    requires p.Valid() && p.IsRegister(r)
    ensures p.IsRegister(w)
  {
    if p.reflectInput then r[8..] + Zeros(8) else Zeros(8) + r[..p.Width() - 8]
  }

  lemma {:induction false} LoadedParts(p: Parameters, r: Word, b: Byte)
    requires p.Valid() && p.IsRegister(r)
    ensures
      var x := Oriented(p, Xor(r, Place(p, b)));
      x[..8] == Oriented(p, Xor(Leading(p, r), ByteBits(b)))
      && x[8..] + Zeros(8) == Oriented(p, ByteShift(p, r))
  {
    var w := p.Width();
    var loaded := Xor(r, Place(p, b));
    if p.reflectInput {
      assert r == r[..8] + r[8..];
      XorConcat(r[..8], ByteBits(b), r[8..], Zeros(w - 8));
      XorZeros(r[8..]);
    } else {
      assert r == r[..w - 8] + r[w - 8..];
      XorConcat(r[..w - 8], Zeros(w - 8), r[w - 8..], ByteBits(b));
      XorZeros(r[..w - 8]);
      ReverseConcat(r[..w - 8], Xor(r[w - 8..], ByteBits(b)));
      ReverseConcat(Zeros(8), r[..w - 8]);
      ReverseZeros(8);
    }
  }

  lemma {:induction false} TableStepCorrect(p: Parameters, table: seq<Word>, r: Word, b: Byte)
    requires p.Valid() && p.IsRegister(r)
    requires IsTable(p, table)
    ensures TableStep(p, table, r, b) == ByteStep(p, r, b)
  {
    var index := ByteOf(Xor(Leading(p, r), ByteBits(b)));
    BitsRoundTrip(Xor(Leading(p, r), ByteBits(b)));
    var loaded := Xor(r, Place(p, b));
    StepsOriented(p, loaded, 8);
    SpinSplit(LowTerms(p), Oriented(p, loaded));
    LoadedParts(p, r, b);
    SingleByteRemainder(p, index);
    StepsOriented(p, Place(p, index), 8);
    PlaceOriented(p, index);
    OrientedXor(p, ByteShift(p, r), table[index as int]);
    OrientedInjective(p, TableStep(p, table, r, b), ByteStep(p, r, b));
  }

  // ----- detection of altered data

  /** Two byte strings of one length that differ, and differ only inside a run of
      transmitted bits no longer than the CRC. */
  ghost predicate BurstBetween(p: Parameters, a: seq<Byte>, b: seq<Byte>, lo: nat, hi: nat) {
    |a| == |b| && Transmitted(p, a) != Transmitted(p, b)
    && lo <= hi <= 8 * |a| && hi - lo <= p.Width()
    && Transmitted(p, a)[..lo] == Transmitted(p, b)[..lo]
    && Transmitted(p, a)[hi..] == Transmitted(p, b)[hi..]
  }

  /** Such strings leave different remainders. */
  lemma {:induction false} BitBurstChangesRemainder(p: Parameters, a: seq<Byte>, b: seq<Byte>, r: Word,
                                                    lo: nat, hi: nat)
    requires p.Valid() && p.polynomial[0] && p.IsRegister(r)
    requires BurstBetween(p, a, b, lo, hi)
    ensures Remainder(p, a, r) != Remainder(p, b, r)
  {
    hide Remainder, Transmitted, Feed;
    RemainderIsSerial(p, a, r);
    RemainderIsSerial(p, b, r);
    ReverseAt(p.polynomial);
    BurstDetected(LowTerms(p), Transmitted(p, a), Transmitted(p, b), Oriented(p, r), lo, hi);
  }

  ghost predicate DetectsBursts(p: Parameters)
    requires p.Valid()
  {
    forall a: seq<Byte>, b: seq<Byte>, r: Word, lo: nat, hi: nat ::
      p.IsRegister(r) && BurstBetween(p, a, b, lo, hi) ==> Remainder(p, a, r) != Remainder(p, b, r)
  }

  /** Every whole number of bytes worth of bits can be sent. */
  lemma {:induction false} AnyBitsTransmitted(p: Parameters, w: Word) returns (a: seq<Byte>)
    requires |w| % 8 == 0
    ensures 8 * |a| == |w| && Transmitted(p, a) == w
  {
    hide Transmitted, FlipBytes;
    var reflected := p.(reflectInput := true);
    a := BytesOf(w);
    BitsOfBytesOf(w);
    TransmittedIsBitsOf(reflected, a);
    if p.reflectInput {
      TransmittedIsBitsOf(p, a);
    } else {
      FlippedBytesAreReversed(reflected, p, a);
      a := FlipBytes(a);
    }
  }

  /** Without an x^0 term some burst no longer than the CRC is never seen,
      whatever the start value. */
  lemma {:induction false} UnitTermNeeded(p: Parameters) returns (a: seq<Byte>, b: seq<Byte>)
    requires p.Valid() && !p.polynomial[0]
    ensures BurstBetween(p, a, b, 0, p.Width())
    ensures forall r: Word :: p.IsRegister(r) ==> Remainder(p, a, r) == Remainder(p, b, r)
  {
    var w, q := p.Width(), LowTerms(p);
    var pad := PadToBytes(w);
    ReverseAt(p.polynomial);
    hide Feed, Remainder, Transmitted, ReflectedStep, BurstBetween, Reverse;
    var lost := StepKernelNeedsUnitTerm(q);
    a := AnyBitsTransmitted(p, lost + Zeros(pad));
    b := AnyBitsTransmitted(p, Zeros(w + pad));
    WindowAtFront(p, a, b, lost, pad);
    forall r: Word | p.IsRegister(r) ensures Remainder(p, a, r) == Remainder(p, b, r) {
      RemainderIsSerial(p, a, r);
      RemainderIsSerial(p, b, r);
      LostBurstUnseen(q, lost, pad, Oriented(p, r));
      OrientedInjective(p, Remainder(p, a, r), Remainder(p, b, r));
    }
  }

  lemma {:induction false} PadToBytes(w: nat) returns (pad: nat)
    ensures (w + pad) % 8 == 0
  {
    pad := 7 * w;
  }

  lemma {:induction false} WindowAtFront(p: Parameters, a: seq<Byte>, b: seq<Byte>, lost: Word, pad: nat)
    requires |lost| == p.Width() && lost != Zeros(p.Width()) && 8 * |a| == 8 * |b| == p.Width() + pad
    requires Transmitted(p, a) == lost + Zeros(pad) && Transmitted(p, b) == Zeros(p.Width() + pad)
    ensures BurstBetween(p, a, b, 0, p.Width())
  {
    hide Transmitted;
    var w := p.Width();
    NonzeroPadded(lost, pad);
    assert Transmitted(p, a)[w..] == Zeros(pad) == Transmitted(p, b)[w..];
  }

  lemma {:induction false} LostBurstUnseen(q: Word, lost: Word, pad: nat, s: Word)
    requires |s| == |lost| == |q| > 0 && ReflectedStep(q, lost) == Zeros(|q|)
    ensures Feed(q, lost + Zeros(pad), s) == Feed(q, Zeros(|q| + pad), s)
  {
    hide Feed, ReflectedStep, Xor;
    var w := |q|;
    var burst, nothing := lost + Zeros(pad), Zeros(w + pad);
    // from the zero register the burst leaves zero
    FeedConcat(q, lost, Zeros(pad), Zeros(w));
    XorZeros(lost);
    assert lost + Zeros(0) == lost;
    FrontLoad(q, lost, Zeros(w));
    SpinOfZeros(q, w - 1);
    FeedZeros(q, Zeros(w), pad);
    SpinOfZeros(q, pad);
    // and the register is linear
    XorZeros(s);
    XorZeros(burst);
    FeedLinear(q, nothing, burst, s, Zeros(w));
    XorZeros(Feed(q, nothing, s));
  }

  /** All bursts up to the width of the CRC are detected exactly when the
      polynomial has an x^0 term. */
  lemma {:induction false} BurstDetectionExact(p: Parameters)
    requires p.Valid()
    ensures DetectsBursts(p) <==> p.polynomial[0]
  {
    hide Remainder, BurstBetween;
    if p.polynomial[0] {
      forall a: seq<Byte>, b: seq<Byte>, r: Word, lo: nat, hi: nat
        | p.IsRegister(r) && BurstBetween(p, a, b, lo, hi)
        ensures Remainder(p, a, r) != Remainder(p, b, r)
      {
        BitBurstChangesRemainder(p, a, b, r, lo, hi);
      }
    } else {
      var a, b := UnitTermNeeded(p);
      assert p.IsRegister(p.initialValue) && Remainder(p, a, p.initialValue) == Remainder(p, b, p.initialValue);
    }
  }

  lemma {:induction false} TransmittedConcat(p: Parameters, a: seq<Byte>, b: seq<Byte>)
    ensures Transmitted(p, a + b) == Transmitted(p, a) + Transmitted(p, b)
    decreases |a|
  {
    hide ByteBits, Oriented;
    if a == [] {
      assert a + b == b;
    } else {
      assert (a + b)[0] == a[0] && (a + b)[1..] == a[1..] + b;
      TransmittedConcat(p, a[1..], b);
      ConcatAssoc(Oriented(p, ByteBits(a[0])), Transmitted(p, a[1..]), Transmitted(p, b));
    }
  }

  lemma {:induction false} TransmittedInjective(p: Parameters, a: seq<Byte>, b: seq<Byte>)
    requires |a| == |b| && Transmitted(p, a) == Transmitted(p, b)
    ensures a == b
    decreases |a|
  {
    hide ByteBits, ByteOf, Oriented;
    if a != [] {
      var x, y := ByteBits(a[0]), ByteBits(b[0]);
      assert Oriented(p, x) == Transmitted(p, a)[..8] == Transmitted(p, b)[..8] == Oriented(p, y);
      OrientedInjective(p, x, y);
      ByteRoundTrip(a[0]);
      ByteRoundTrip(b[0]);
      assert Transmitted(p, a[1..]) == Transmitted(p, a)[8..] == Transmitted(p, b)[8..];
      TransmittedInjective(p, a[1..], b[1..]);
      assert a == [a[0]] + a[1..] && b == [b[0]] + b[1..];
    }
  }

  lemma {:induction false} TransmittedSlices(p: Parameters, a: seq<Byte>, k: nat)
    requires k <= |a|
    ensures Transmitted(p, a)[..8 * k] == Transmitted(p, a[..k])
    ensures Transmitted(p, a)[8 * k..] == Transmitted(p, a[k..])
  {
    assert a == a[..k] + a[k..];
    TransmittedConcat(p, a[..k], a[k..]);
    assert |Transmitted(p, a[..k])| == 8 * k;
  }

  /** The same for whole bytes: any change confined to Width / 8 consecutive bytes shows. */
  lemma {:induction false} ByteBurstChangesRemainder(p: Parameters, a: seq<Byte>, b: seq<Byte>, r: Word,
                                                     lo: nat, hi: nat)
    requires p.Valid() && p.polynomial[0] && p.IsRegister(r)
    requires |a| == |b| && a != b
    requires lo <= hi <= |a| && 8 * (hi - lo) <= p.Width()
    requires a[..lo] == b[..lo] && a[hi..] == b[hi..]
    ensures Remainder(p, a, r) != Remainder(p, b, r)
  {
    hide Remainder, Transmitted;
    TransmittedSlices(p, a, lo);
    TransmittedSlices(p, b, lo);
    TransmittedSlices(p, a, hi);
    TransmittedSlices(p, b, hi);
    if Transmitted(p, a) == Transmitted(p, b) {
      TransmittedInjective(p, a, b);
    } else {
      BitBurstChangesRemainder(p, a, b, r, 8 * lo, 8 * hi);
    }
  }

  lemma {:induction false} BitBurstChangesChecksum(p: Parameters, a: seq<Byte>, b: seq<Byte>, lo: nat, hi: nat)
    requires p.Valid() && p.polynomial[0] && BurstBetween(p, a, b, lo, hi)
    ensures Checksum(p, a) != Checksum(p, b)
  {
    hide Remainder, Finalize, UndoFinalize, BurstBetween;
    var r := p.initialValue;
    BitBurstChangesRemainder(p, a, b, r, lo, hi);
    FinalizeInverse(p, Remainder(p, a, r));
    FinalizeInverse(p, Remainder(p, b, r));
  }

  lemma {:induction false} ByteBurstChangesChecksum(p: Parameters, a: seq<Byte>, b: seq<Byte>, lo: nat, hi: nat)
    requires p.Valid() && p.polynomial[0]
    requires |a| == |b| && a != b
    requires lo <= hi <= |a| && 8 * (hi - lo) <= p.Width()
    requires a[..lo] == b[..lo] && a[hi..] == b[hi..]
    ensures Checksum(p, a) != Checksum(p, b)
  {
    hide Remainder, Finalize, UndoFinalize;
    var r := p.initialValue;
    ByteBurstChangesRemainder(p, a, b, r, lo, hi);
    FinalizeInverse(p, Remainder(p, a, r));
    FinalizeInverse(p, Remainder(p, b, r));
  }

  lemma {:induction false} TransmittedIsBitsOf(p: Parameters, data: seq<Byte>)
    requires p.reflectInput
    ensures Transmitted(p, data) == BitsOf(data)
    decreases |data|
  {
    if data != [] {
      TransmittedIsBitsOf(p, data[1..]);
    }
  }

  /** Data followed by `stored`, read as a little-endian word, leaves the zero
      register exactly when `stored` is the register the data left. */
  lemma {:induction false} ZeroResidue(p: Parameters, data: seq<Byte>, stored: seq<Byte>, r: Word)
    requires p.Valid() && p.polynomial[0] && p.reflectInput && p.IsRegister(r)
    requires 8 * |stored| == p.Width()
    ensures Remainder(p, data + stored, r) == Zeros(p.Width()) <==> BitsOf(stored) == Remainder(p, data, r)
  {
    var s := Remainder(p, data, r);
    RemainderConcat(p, data, stored, r);
    RemainderIsSerial(p, stored, s);
    TransmittedIsBitsOf(p, stored);
    OwnBitsClear(LowTerms(p), BitsOf(stored), s);
  }
}

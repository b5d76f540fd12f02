/** The theory behind the CRC code: the byte loops are one bit-serial division,
    which is linear, reversible, and detects every short burst. */
module CrcTheory {
  import opened Bits
  import opened CrcSpec

  /** The shift register that divides a bit string, one bit at a time. */
  function Feed(q: Word, d: Word, r: Word): (s: Word)
    requires |r| == |q| > 0
    ensures |s| == |q|
    decreases |d|, q, r
  {
    if d == [] then r else Feed(q, d[1..], ReflectedStep(q, [r[0] != d[0]] + r[1..]))
  }

  /** `n` steps with no input. */
  function Spin(q: Word, r: Word, n: nat): (s: Word)
    requires |r| == |q| > 0
    ensures |s| == |q|
    decreases n, q, r
  {
    if n == 0 then r else Spin(q, ReflectedStep(q, r), n - 1)
  }

  // ----- a step is linear, and reversible when the polynomial has an x^0 term

  lemma {:induction false} StepLinear(q: Word, a: Word, b: Word)
    requires |a| == |b| == |q| > 0
    ensures ReflectedStep(q, Xor(a, b)) == Xor(ReflectedStep(q, a), ReflectedStep(q, b))
  {
  }

  lemma {:induction false} SpinLinear(q: Word, a: Word, b: Word, n: nat)
    requires |a| == |b| == |q| > 0
    ensures Spin(q, Xor(a, b), n) == Xor(Spin(q, a, n), Spin(q, b, n))
    decreases n
  {
    if n > 0 {
      StepLinear(q, a, b);
      SpinLinear(q, ReflectedStep(q, a), ReflectedStep(q, b), n - 1);
    }
  }

  lemma {:induction false} StepOfZeros(q: Word)
    requires |q| > 0
    ensures ReflectedStep(q, Zeros(|q|)) == Zeros(|q|)
  {
  }

  lemma {:induction false} SpinOfZeros(q: Word, n: nat)
    requires |q| > 0
    ensures Spin(q, Zeros(|q|), n) == Zeros(|q|)
    decreases n
  {
    if n > 0 {
      StepOfZeros(q);
      SpinOfZeros(q, n - 1);
    }
  }

  /** With an x^0 term (the top bit once reflected) a step that leaves zero
      started from zero. */
  lemma {:induction false} StepKernel(q: Word, r: Word)
    requires |r| == |q| > 0 && q[|q| - 1]
    ensures ReflectedStep(q, r) == Zeros(|q|) <==> r == Zeros(|q|)
  {
    var s := ReflectedStep(q, r);
    if r == Zeros(|q|) {
      StepOfZeros(q);
    } else {
      var i :| 0 <= i < |r| && r[i];
      if r[0] {
        // the x^0 term comes in behind the bits that move
        assert s[|q| - 1];
      } else {
        assert s[i - 1];
      }
    }
  }

  /** Without an x^0 term some register other than zero is lost in one step. */
  lemma {:induction false} StepKernelNeedsUnitTerm(q: Word) returns (r: Word)
    requires |q| > 0 && !q[|q| - 1]
    ensures |r| == |q| && r != Zeros(|q|) && ReflectedStep(q, r) == Zeros(|q|)
  {
    r := [true] + q[..|q| - 1];
    assert ShiftRight(r) == q;
    XorIsZero(q, q);
    assert r[0] && !Zeros(|q|)[0];
  }

  lemma {:induction false} SpinKernel(q: Word, r: Word, n: nat)
    requires |r| == |q| > 0 && q[|q| - 1]
    ensures Spin(q, r, n) == Zeros(|q|) <==> r == Zeros(|q|)
    decreases n
  {
    if n > 0 {
      StepKernel(q, r);
      SpinKernel(q, ReflectedStep(q, r), n - 1);
    }
  }

  // ----- input bits may all be loaded in front

  lemma {:induction false} SpinShifts(q: Word, r: Word, n: nat)
    requires |r| == |q| > 0 && n <= |q|
    requires forall i :: 0 <= i < n ==> !r[i]
    ensures Spin(q, r, n) == r[n..] + Zeros(n)
    decreases n
  {
    if n > 0 {
      var s := ReflectedStep(q, r);
      assert s == r[1..] + [false];
      SpinShifts(q, s, n - 1);
      assert s[n - 1..] + Zeros(n - 1) == r[n..] + Zeros(n);
    } else {
      assert r[0..] + Zeros(0) == r;
    }
  }

  lemma {:induction false} LoadLater(q: Word, d: Word, r: Word)
    requires 0 < |d| <= |q| == |r|
    ensures var first := [r[0] != d[0]] + r[1..];
      ReflectedStep(q, Xor(r, d + Zeros(|q| - |d|)))
      == Xor(ReflectedStep(q, first), d[1..] + Zeros(|q| - |d| + 1))
  {
  }

  lemma {:induction false} FrontLoad(q: Word, d: Word, r: Word)
    requires |d| <= |q| == |r| && |q| > 0
    ensures Feed(q, d, r) == Spin(q, Xor(r, d + Zeros(|q| - |d|)), |d|)
    decreases |d|
  {
    hide Xor, Zeros, ReflectedStep;
    if d == [] {
      assert d + Zeros(|q|) == Zeros(|r|);
      XorZeros(r);
    } else {
      LoadLater(q, d, r);
      FrontLoad(q, d[1..], ReflectedStep(q, [r[0] != d[0]] + r[1..]));
    }
  }

  // ----- the register as a function of a whole bit string

  lemma {:induction false} FeedConcat(q: Word, d: Word, e: Word, r: Word)
    requires |r| == |q| > 0
    ensures Feed(q, d + e, r) == Feed(q, e, Feed(q, d, r))
    decreases |d|
  {
    if d == [] {
      assert d + e == e;
    } else {
      assert (d + e)[1..] == d[1..] + e;
      FeedConcat(q, d[1..], e, ReflectedStep(q, [r[0] != d[0]] + r[1..]));
    }
  }

  lemma {:induction false} FeedLinear(q: Word, d: Word, e: Word, r: Word, s: Word)
    requires |d| == |e| && |r| == |s| == |q| > 0
    ensures Feed(q, Xor(d, e), Xor(r, s)) == Xor(Feed(q, d, r), Feed(q, e, s))
    decreases |d|
  {
    if d != [] {
      var r' := [r[0] != d[0]] + r[1..];
      var s' := [s[0] != e[0]] + s[1..];
      assert Xor(d, e)[1..] == Xor(d[1..], e[1..]);
      assert [Xor(r, s)[0] != Xor(d, e)[0]] + Xor(r, s)[1..] == Xor(r', s');
      StepLinear(q, r', s');
      FeedLinear(q, d[1..], e[1..], ReflectedStep(q, r'), ReflectedStep(q, s'));
    }
  }

  lemma {:induction false} FeedZeros(q: Word, r: Word, n: nat)
    requires |r| == |q| > 0
    ensures Feed(q, Zeros(n), r) == Spin(q, r, n)
    decreases n
  {
    if n > 0 {
      assert Zeros(n)[1..] == Zeros(n - 1);
      assert [r[0] != Zeros(n)[0]] + r[1..] == r;
      FeedZeros(q, ReflectedStep(q, r), n - 1);
    }
  }

  lemma {:induction false} NonzeroPadded(d: Word, n: nat)
    requires d != Zeros(|d|)
    ensures d + Zeros(n) != Zeros(|d| + n)
  {
    var i :| 0 <= i < |d| && d[i];
    assert (d + Zeros(n))[i];
  }

  lemma {:induction false} ThreeParts(d: Word, lo: nat, hi: nat)
    requires lo <= hi <= |d|
    ensures d == d[..lo] + d[lo..hi] + d[hi..]
  {
  }

  /** A nonzero difference that vanishes outside a window is nonzero inside it. */
  lemma {:induction false} WindowOfDifference(d: Word, e: Word, lo: nat, hi: nat)
    requires |d| == |e| && d != e && lo <= hi <= |d|
    requires d[..lo] == e[..lo] && d[hi..] == e[hi..]
    ensures var burst := Xor(d[lo..hi], e[lo..hi]);
      burst != Zeros(hi - lo) && Xor(d, e) == Zeros(lo) + burst + Zeros(|d| - hi)
  {
    hide Xor, Zeros;
    var a, b, c := d[..lo], d[lo..hi], d[hi..];
    var x, y, z := e[..lo], e[lo..hi], e[hi..];
    ThreeParts(d, lo, hi);
    ThreeParts(e, lo, hi);
    XorConcat(a + b, x + y, c, z);
    XorConcat(a, x, b, y);
    XorIsZero(a, x);
    XorIsZero(b, y);
    XorIsZero(c, z);
  }

  /** Every nonzero burst that fits in the register leaves a nonzero register,
      whatever its position in the string. */
  lemma {:induction false} BurstIsSeen(q: Word, before: nat, burst: Word, after: nat)
    requires |q| > 0 && q[|q| - 1]
    requires |burst| <= |q| && burst != Zeros(|burst|)
    ensures Feed(q, Zeros(before) + burst + Zeros(after), Zeros(|q|)) != Zeros(|q|)
  {
    var w := |q|;
    var zero := Zeros(w);
    FeedConcat(q, Zeros(before) + burst, Zeros(after), zero);
    FeedConcat(q, Zeros(before), burst, zero);
    FeedZeros(q, zero, before);
    SpinOfZeros(q, before);
    FrontLoad(q, burst, zero);
    var loaded := burst + Zeros(w - |burst|);
    XorZeros(loaded);
    NonzeroPadded(burst, w - |burst|);
    SpinKernel(q, loaded, |burst|);
    FeedZeros(q, Feed(q, burst, zero), after);
    SpinKernel(q, Feed(q, burst, zero), after);
  }

  /** Two bit strings that differ, and differ only inside a window no longer
      than the register, never leave the same register. */
  lemma {:induction false} BurstDetected(q: Word, d: Word, e: Word, r: Word, lo: nat, hi: nat)
    requires |r| == |q| > 0 && q[|q| - 1]
    requires |d| == |e| && d != e
    requires lo <= hi <= |d| && hi - lo <= |q|
    requires d[..lo] == e[..lo] && d[hi..] == e[hi..]
    ensures Feed(q, d, r) != Feed(q, e, r)
  {
    WindowOfDifference(d, e, lo, hi);
    var burst := Xor(d[lo..hi], e[lo..hi]);
    BurstIsSeen(q, lo, burst, |d| - hi);
    XorIsZero(r, r);
    FeedLinear(q, d, e, r, r);
    XorIsZero(Feed(q, d, r), Feed(q, e, r));
  }

  /** Feeding a register its own bits clears it, and nothing else does. */
  lemma {:induction false} OwnBitsClear(q: Word, e: Word, r: Word)
    requires |e| == |r| == |q| > 0 && q[|q| - 1]
    ensures Feed(q, e, r) == Zeros(|q|) <==> e == r
  {
    FrontLoad(q, e, r);
    assert e + Zeros(0) == e;
    SpinKernel(q, Xor(r, e), |q|);
    XorIsZero(r, e);
  }
}

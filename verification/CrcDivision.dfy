/** Polynomial long division over GF(2), the mathematical meaning of a CRC.
    A polynomial is the list of its coefficients, highest power first. */
module CrcDivision {
  import opened Bits
  import opened CrcSpec
  import opened CrcTheory

  /** The product of `quo` and `g`; it has |quo| + |g| - 1 coefficients. */
  function Product(quo: Word, g: Word): (m: Word)
    requires |g| > 0
    ensures |m| == |quo| + |g| - 1
    decreases |quo|
  {
    if quo == [] then Zeros(|g| - 1)
    else
      var head := if quo[0] then g + Zeros(|quo| - 1) else Zeros(|quo| + |g| - 1);
      Xor(head, [false] + Product(quo[1..], g))
  }

  /** `dividend` equals some multiple of `g` plus `rem`, and `rem` has a smaller degree than `g`. */
  ghost predicate IsRemainder(g: Word, dividend: Word, rem: Word)
    requires 0 < |g| <= |dividend| + 1 && |rem| == |g| - 1
  {
    exists quo: Word :: |quo| == |dividend| - |rem| && dividend == WithRemainder(quo, g, rem)
  }

  function WithRemainder(quo: Word, g: Word, rem: Word): (m: Word)
    requires |g| == |rem| + 1
    ensures |m| == |quo| + |rem|
  {
    Xor(Product(quo, g), Zeros(|quo|) + rem)
  }

  function Quotient(q: Word, d: Word, r: Word): (quo: Word)
    requires |r| == |q| > 0
    ensures |quo| == |d|
    decreases |d|
  {
    if d == [] then [] else
      var top := r[0] != d[0];
      [top] + Quotient(q, d[1..], ReflectedStep(q, [top] + r[1..]))
  }

  /** The message with the register added at its front, times x^width. */
  function Dividend(q: Word, d: Word, r: Word): (m: Word)
    requires |r| == |q|
    ensures |m| == |d| + |q|
  {
    Xor(r + Zeros(|d|), d + Zeros(|q|))
  }

  lemma {:induction false} ProductStep(quo: Word, q: Word)
    requires |quo| > 0
    ensures Product(quo, [true] + q)
      == Xor([quo[0]] + (if quo[0] then q + Zeros(|quo| - 1) else Zeros(|quo| + |q| - 1)),
             [false] + Product(quo[1..], [true] + q))
  {
    hide Xor;
    var n, w := |quo|, |q|;
    assert [true] + q + Zeros(n - 1) == [true] + (q + Zeros(n - 1));
    assert Zeros(n + w) == [false] + Zeros(n + w - 1);
  }

  lemma {:induction false} WithRemainderStep(quo: Word, q: Word, rem: Word)
    requires |q| == |rem| && |quo| > 0
    ensures WithRemainder(quo, [true] + q, rem)
      == [quo[0]] + Xor(if quo[0] then q + Zeros(|quo| - 1) else Zeros(|quo| + |q| - 1),
                        WithRemainder(quo[1..], [true] + q, rem))
  {
    hide Xor, Zeros, Product;
    var n, w := |quo|, |q|;
    var g := [true] + q;
    var low := if quo[0] then q + Zeros(n - 1) else Zeros(n + w - 1);
    var rest := Product(quo[1..], g);
    ProductStep(quo, q);
    XorCons(quo[0], low, false, rest);
    assert Zeros(n) + rem == [false] + (Zeros(n - 1) + rem);
    XorCons(quo[0], Xor(low, rest), false, Zeros(n - 1) + rem);
    XorAssoc(low, rest, Zeros(n - 1) + rem);
  }

  lemma {:induction false} DividendStep(q: Word, d: Word, r: Word)
    requires |r| == |q| > 0 && |d| > 0
    ensures var top := r[0] != d[0];
      Dividend(q, d, r) == [top] + Xor(if top then q + Zeros(|d| - 1) else Zeros(|d| + |q| - 1),
                                       Dividend(q, d[1..], ReflectedStep(q, [top] + r[1..])))
  {
    hide Xor, Zeros;
    var top, n := r[0] != d[0], |d|;
    var shifted, pad := r[1..] + [false], Zeros(n - 1);
    assert ShiftRight([top] + r[1..]) == shifted;
    assert r + Zeros(n) == [r[0]] + (shifted + pad);
    assert d + Zeros(|q|) == [d[0]] + (d[1..] + Zeros(|q|));
    XorCons(r[0], shifted + pad, d[0], d[1..] + Zeros(|q|));
    var x, y, g := shifted + pad, d[1..] + Zeros(|q|), q + pad;
    if top {
      XorConcat(shifted, q, pad, pad);
      XorIsZero(pad, pad);
      XorZeros(pad);
      assert Xor(shifted, q) + pad == Xor(shifted + pad, q + Zeros(n - 1)) by {
        XorConcat(shifted, q, pad, Zeros(n - 1));
      }
      XorAssoc(g, Xor(x, g), y);
      XorCommutes(g, Xor(x, g));
      XorTwice(x, g);
    } else {
      XorZeros(Xor(x, y));
    }
  }

  lemma {:induction false} NothingDivides(q: Word, r: Word)
    requires |r| == |q|
    ensures Dividend(q, [], r) == WithRemainder([], [true] + q, r)
  {
    assert r + Zeros(0) == r && [] + Zeros(|q|) == Zeros(|q|);
    XorZeros(r);
    assert Product([], [true] + q) == Zeros(|q|);
    assert Zeros(0) + r == r;
  }

  lemma {:induction false} FeedDivides(q: Word, d: Word, r: Word)
    requires |r| == |q| > 0
    ensures Dividend(q, d, r) == WithRemainder(Quotient(q, d, r), [true] + q, Feed(q, d, r))
    decreases |d|
  {
    hide Xor, Zeros, WithRemainder, Dividend, ReflectedStep;
    if d == [] {
      NothingDivides(q, r);
    } else {
      var r' := ReflectedStep(q, [r[0] != d[0]] + r[1..]);
      FeedDivides(q, d[1..], r');
      DividendStep(q, d, r);
      var quo := Quotient(q, d, r);
      assert quo[1..] == Quotient(q, d[1..], r');
      WithRemainderStep(quo, q, Feed(q, d, r));
    }
  }

  lemma {:induction false} DivisionIsUnique(u: Word, v: Word, q: Word, a: Word, b: Word)
    requires |u| == |v| && |a| == |b| == |q|
    requires WithRemainder(u, [true] + q, a) == WithRemainder(v, [true] + q, b)
    ensures u == v && a == b
    decreases |u|
  {
    hide Xor, Zeros;
    if u == [] {
      assert Product([], [true] + q) == Zeros(|q|);
      assert Zeros(0) + a == a && Zeros(0) + b == b;
      XorCancels(Zeros(|q|), a, b);
    } else {
      WithRemainderStep(u, q, a);
      WithRemainderStep(v, q, b);
      var x, y := WithRemainder(u[1..], [true] + q, a), WithRemainder(v[1..], [true] + q, b);
      var head := if u[0] then q + Zeros(|u| - 1) else Zeros(|u| + |q| - 1);
      assert u[0] == WithRemainder(u, [true] + q, a)[0] == WithRemainder(v, [true] + q, b)[0] == v[0];
      assert Xor(head, x) == WithRemainder(u, [true] + q, a)[1..];
      assert Xor(head, y) == WithRemainder(v, [true] + q, b)[1..];
      XorCancels(head, x, y);
      DivisionIsUnique(u[1..], v[1..], q, a, b);
      assert u == [u[0]] + u[1..] && v == [v[0]] + v[1..];
    }
  }

  /** The shift register ends at the remainder of long division and at nothing else. */
  lemma {:induction false} FeedIsTheRemainder(q: Word, d: Word, r: Word, rem: Word)
    requires |r| == |q| == |rem| > 0
    ensures IsRemainder([true] + q, Dividend(q, d, r), rem) <==> rem == Feed(q, d, r)
  {
    FeedDivides(q, d, r);
    var quo := Quotient(q, d, r);
    if IsRemainder([true] + q, Dividend(q, d, r), rem) {
      var other: Word :| |other| == |d| && Dividend(q, d, r) == WithRemainder(other, [true] + q, rem);
      DivisionIsUnique(other, quo, q, rem, Feed(q, d, r));
    }
  }
}

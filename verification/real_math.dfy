/** The floating-point library functions the simulator calls (NumPy `exp`, `log`, `sqrt`,
    `pi`, SciPy `integrate.quad`), taken as parameters of the model.  Each is
    uninterpreted except for the laws below, which are the only facts the proofs use. */
module RealMath {

  /** The library functions, bundled so that they can be passed around as one value. */
  datatype Transcendentals = Transcendentals(
    exp: real -> real,
    ln: real -> real,
    sqrt: real -> real,
    pi: real,
    quad: (real -> real, real, real) -> real)

  /** exp is positive, strictly increasing (so order-reflecting), maps 0 to 1 and lies
      above its tangent at 0. */
  ghost predicate ExpLaws(m: Transcendentals) {
    && m.exp(0.0) == 1.0
    && (forall x :: 0.0 < m.exp(x))
    && (forall x :: 1.0 + x <= m.exp(x))
    && (forall x, y :: x < y <==> m.exp(x) < m.exp(y))
  }

  /** ln and exp are inverse to each other on the positive reals. */
  ghost predicate LogLaws(m: Transcendentals) {
    && (forall x :: 0.0 < x ==> m.exp(m.ln(x)) == x)
    && (forall x :: m.ln(m.exp(x)) == x)
  }

  /** sqrt is the non-negative square root on the non-negative reals. */
  ghost predicate SqrtLaws(m: Transcendentals) {
    forall x :: 0.0 <= x ==> 0.0 <= m.sqrt(x) && m.sqrt(x) * m.sqrt(x) == x
  }

  /** The quadrature of a function that is 1 on a bin is the bin width, and of a
      function with values in (0, 1] it lies in (0, width]. */
  ghost predicate QuadLaws(m: Transcendentals) {
    && (forall f: real -> real, lo: real, hi: real ::
          lo < hi && (forall x :: lo <= x <= hi ==> f(x) == 1.0) ==> m.quad(f, lo, hi) == hi - lo)
    && (forall f: real -> real, lo: real, hi: real ::
          lo < hi && (forall x :: lo <= x <= hi ==> 0.0 < f(x) <= 1.0) ==>
            0.0 < m.quad(f, lo, hi) <= hi - lo)
  }

  /** The average over a bin of a function with values in (0, 1] lies in (0, 1]. */
  lemma QuadAverageOfProbability(m: Transcendentals, f: real -> real, lo: real, hi: real)
    requires QuadLaws(m) && lo < hi
    requires forall x :: lo <= x <= hi ==> 0.0 < f(x) <= 1.0
    ensures 0.0 < m.quad(f, lo, hi) / (hi - lo) <= 1.0
  {
    RatioAtMostOne(m.quad(f, lo, hi), hi - lo);
  }

  lemma RatioAtMostOne(q: real, w: real)
    requires 0.0 < q <= w
    ensures 0.0 < q / w <= 1.0
  {
    var r := q / w;
    assert r * w == q;
  }

  /** The average over a bin of a function that is 1 there is 1. */
  lemma QuadAverageOfOne(m: Transcendentals, f: real -> real, lo: real, hi: real)
    requires QuadLaws(m) && lo < hi
    requires forall x :: lo <= x <= hi ==> f(x) == 1.0
    ensures m.quad(f, lo, hi) / (hi - lo) == 1.0
  {
    assert m.quad(f, lo, hi) == hi - lo;
    RatioOfEqual(m.quad(f, lo, hi), hi - lo);
  }

  lemma RatioOfEqual(q: real, w: real)
    requires 0.0 < w && q == w
    ensures q / w == 1.0
  {
  }

  ghost predicate Lawful(m: Transcendentals) {
    && ExpLaws(m)
    && LogLaws(m)
    && SqrtLaws(m)
    && 3.14 < m.pi < 3.15
    && QuadLaws(m)
  }

  /** NumPy's `b ** e` for a positive base. */
  function Pow(m: Transcendentals, b: real, e: real): real {
    m.exp(e * m.ln(b))
  }

  /** The constant 2·sqrt(2·ln 2) that converts a FWHM to a standard deviation. */
  function FwhmPerSigma(m: Transcendentals): real {
    2.0 * m.sqrt(2.0 * m.ln(2.0))
  }

  lemma ExpOfNonPositive(m: Transcendentals, x: real)
    requires ExpLaws(m)
    requires x <= 0.0
    ensures 0.0 < m.exp(x) <= 1.0
  {
    if x < 0.0 {
      assert m.exp(x) < m.exp(0.0);
    }
  }

  lemma LnOfOne(m: Transcendentals)
    requires ExpLaws(m) && LogLaws(m)
    ensures m.ln(1.0) == 0.0
  {
    assert m.ln(m.exp(0.0)) == 0.0;
  }

  lemma LnStrictlyIncreasing(m: Transcendentals, x: real, y: real)
    requires ExpLaws(m) && LogLaws(m)
    requires 0.0 < x < y
    ensures m.ln(x) < m.ln(y)
  {
    assert m.exp(m.ln(x)) < m.exp(m.ln(y));
  }

  lemma LnBelowOneIsNegative(m: Transcendentals, x: real)
    requires ExpLaws(m) && LogLaws(m)
    requires 0.0 < x < 1.0
    ensures m.ln(x) < 0.0
  {
    LnStrictlyIncreasing(m, x, 1.0);
    LnOfOne(m);
  }

  lemma PowOfOne(m: Transcendentals, e: real)
    requires ExpLaws(m) && LogLaws(m)
    ensures Pow(m, 1.0, e) == 1.0
  {
    LnOfOne(m);
    assert e * m.ln(1.0) == 0.0;
  }

  lemma PowUnitExponent(m: Transcendentals, b: real)
    requires LogLaws(m)
    requires 0.0 < b
    ensures Pow(m, b, 1.0) == b
  {
    assert 1.0 * m.ln(b) == m.ln(b);
  }

  lemma FwhmPerSigmaPositive(m: Transcendentals)
    requires ExpLaws(m) && LogLaws(m) && SqrtLaws(m)
    ensures 0.0 < FwhmPerSigma(m)
  {
    LnStrictlyIncreasing(m, 1.0, 2.0);
    LnOfOne(m);
    var s := m.sqrt(2.0 * m.ln(2.0));
    assert 0.0 <= s && 0.0 < s * s;
  }

  /** NumPy's `x ** 2`. */
  function Square(x: real): real {
    x * x
  }

  /** A square is never negative, is positive off zero and is even.  The steps go
      through `calc` so that each product is reasoned about on its own. */
  lemma SquareSign(x: real)
    ensures 0.0 <= Square(x)
    ensures x != 0.0 ==> 0.0 < Square(x)
    ensures Square(-x) == Square(x)
  {
    if x < 0.0 {
      calc {
        Square(x);
        == (-x) * (-x);
        > 0.0;
      }
    } else if x > 0.0 {
      calc {
        Square(x);
        == x * x;
        > 0.0;
      }
    }
    calc {
      Square(-x);
      == (-x) * (-x);
      == x * x;
      == Square(x);
    }
  }

  /** A non-negative amount over a positive one, negated, is at most zero. */
  lemma NegatedQuotient(a: real, q: real)
    requires 0.0 <= a && 0.0 < q
    ensures -a / q <= 0.0
    ensures a == 0.0 ==> -a / q == 0.0
  {
  }
}

/** The twiddle factors of the transform from square roots: halving the angle from -pi on. */
module UnitRoots {
  import opened Fft
  import opened FftMath
  import opened SquareRoot

  // ------------------------------------------------------------------- repeated square roots

  function Halved<T>(half: T -> T, u: T, n: nat): T {
    if n == 0 then u else half(Halved(half, u, n - 1))
  }

  /** `half` takes square roots of the good elements, and gives good ones. */
  ghost predicate Halves<T(!new)>(r: Ring<T>, half: T -> T, good: T -> bool) {
    forall z :: HalvesAt(r, half, good, z)
  }

  ghost predicate HalvesAt<T>(r: Ring<T>, half: T -> T, good: T -> bool, z: T) {
    good(z) ==> good(half(z)) && r.mul(half(z), half(z)) == z
  }

  lemma {:induction false} PowerOfSquare<T(!new)>(r: Ring<T>, u: T, k: nat)
    requires RingLaws(r)
    ensures Power(r, u, 2 * k) == Power(r, r.mul(u, u), k)
  {
    if k > 0 {
      PowerOfSquare(r, u, k - 1);
      var rest := Power(r, u, 2 * k - 2);
      assert Power(r, u, 2 * k) == r.mul(u, Power(r, u, 2 * k - 1));
      assert Power(r, u, 2 * k - 1) == r.mul(u, rest);
      assert MulLaw(r, u, u, rest);
    }
  }

  /** The n-th root of this kind has the start as its 2^n-th power. */
  lemma {:induction false} HalvedPower<T(!new)>(r: Ring<T>, half: T -> T, good: T -> bool, u: T, n: nat)
    requires RingLaws(r) && Halves(r, half, good) && good(u)
    ensures good(Halved(half, u, n)) && Power(r, Halved(half, u, n), Pow2(n)) == u
  {
    if n == 0 {
      assert UnitLaw(r, u);
      assert Power(r, u, 1) == r.mul(u, Power(r, u, 0));
    } else {
      HalvedPower(r, half, good, u, n - 1);
      assert HalvesAt(r, half, good, Halved(half, u, n - 1));
      PowerOfSquare(r, Halved(half, u, n), Pow2(n - 1));
    }
  }

  lemma TwiddlesFromHalves<T(!new)>(r: Ring<T>, half: T -> T, good: T -> bool, bits: nat, u: T)
    requires RingLaws(r) && Halves(r, half, good) && good(r.minusOne)
    requires bits >= 1 && u == Halved(half, r.minusOne, bits - 1)
    ensures TwiddleLaws(r, RootTwiddle(r, u, bits), bits)
  {
    HalvedPower(r, half, good, r.minusOne, bits - 1);
    RootGivesTwiddles(r, u, bits);
  }

  // ----------------------------------------------------------------------- halving an angle

  /** On the unit circle, and not -1. */
  predicate Turns(z: Complex) {
    z.re * z.re + z.im * z.im == 1.0 && z.re > -1.0
  }

  /** Cosine and sine of half the angle of `z`, by the half-angle formulas. */
  function HalfAngle(root: real -> real, z: Complex): Complex {
    var c := root((1.0 + z.re) / 2.0);
    Complex(c, if c == 0.0 then 0.0 else z.im / (2.0 * c))
  }

  lemma CancelFactor(a: real, b: real)
    requires a * b == 0.0 && b != 0.0
    ensures a == 0.0
  {
    assert (a * b) / b == a;
  }

  /** With q = sin / (2c): q squared is (1 - x) / 2, where x is the cosine and s = c squared is (1 + x) / 2. */
  lemma OtherHalf(s: real, c: real, x: real, y: real, q: real, p: real)
    requires s == c * c && s == (1.0 + x) / 2.0 && x > -1.0 && y * y == 1.0 - x * x && y == q * (2.0 * c) && p == q * q
    ensures p == (1.0 - x) / 2.0
  {
    assert y * y == p * (4.0 * s) by {
      FourFold(q, c, s, y, p);
    }
    var w := 1.0 + x;
    assert 4.0 * s == 2.0 * w;
    assert (1.0 - x) * w == 1.0 - x * x;
    assert p * (4.0 * s) == p * (2.0 * w);
    Factors(p, x, w);
    CancelFactor(2.0 * p - (1.0 - x), w);
  }

  lemma Factors(p: real, x: real, w: real)
    ensures (2.0 * p - (1.0 - x)) * w == p * (2.0 * w) - (1.0 - x) * w
  {
  }

  lemma FourFold(q: real, c: real, s: real, y: real, p: real)
    requires s == c * c && y == q * (2.0 * c) && p == q * q
    ensures y * y == p * (4.0 * s)
  {
  }

  lemma HalfSine(y: real, c: real)
    requires c != 0.0
    ensures var q := y / (2.0 * c); y == q * (2.0 * c) && c * q + q * c == y
  {
    assert (y / (2.0 * c)) * (2.0 * c) == y;
  }

  lemma RootIsPositive(root: real -> real, s: real)
    requires IsRoot(root) && s > 0.0
    ensures root(s) > 0.0 && root(s) * root(s) == s
  {
  }

  /** Its square is `z` again, and it stays on the circle, right of the imaginary axis. */
  lemma HalfAngleSquared(root: real -> real, z: Complex)
    requires IsRoot(root) && Turns(z)
    ensures var h := HalfAngle(root, z); Mul(h, h) == z && Turns(h) && h.re > 0.0
  {
    var s := (1.0 + z.re) / 2.0;
    var c := root(s);
    RootIsPositive(root, s);
    var q := z.im / (2.0 * c);
    HalfSine(z.im, c);
    OtherHalf(s, c, z.re, z.im, q, q * q);
    assert HalfAngle(root, z) == Complex(c, q);
    SquareIs(c, q, s, q * q, z);
  }

  lemma SquareIs(c: real, q: real, s: real, p: real, z: Complex)
    requires s == c * c && p == q * q && s - p == z.re && c * q + q * c == z.im && s + p == 1.0 && c > 0.0
    ensures Mul(Complex(c, q), Complex(c, q)) == z && Turns(Complex(c, q))
  {
  }

  function Half(root: real -> real): Complex -> Complex {
    z => if z == MINUS_ONE then MINUS_I else HalfAngle(root, z)
  }

  function OnCircle(): Complex -> bool {
    z => z == MINUS_ONE || Turns(z)
  }

  lemma MinusITurns()
    ensures Turns(MINUS_I) && Mul(MINUS_I, MINUS_I) == MINUS_ONE
  {
    MulByMinusI(MINUS_I);
  }

  lemma HalfOfMinusOne(root: real -> real)
    ensures HalvesAt(COMPLEX, Half(root), OnCircle(), MINUS_ONE)
  {
    MinusITurns();
  }

  lemma HalfAt(root: real -> real, z: Complex)
    requires IsRoot(root) && z != MINUS_ONE
    ensures HalvesAt(COMPLEX, Half(root), OnCircle(), z)
  {
    if Turns(z) {
      HalfAngleSquared(root, z);
    }
  }

  lemma HalfHalves(root: real -> real)
    requires IsRoot(root)
    ensures Halves(COMPLEX, Half(root), OnCircle())
  {
    forall z ensures HalvesAt(COMPLEX, Half(root), OnCircle(), z) {
      if z == MINUS_ONE {
        HalfOfMinusOne(root);
      } else {
        HalfAt(root, z);
      }
    }
  }

  /** The root of order 2^bits: -1, -i, and from there by halving the angle. */
  function UnitRoot(root: real -> real, bits: nat): Complex
    requires bits >= 1
  {
    Halved(Half(root), MINUS_ONE, bits - 1)
  }

  /** For every frame of more than one sample, given square roots, there are lawful twiddles over the complex
      numbers: the cosines and sines of the half-angle formulas. */
  lemma TwiddlesExist(root: real -> real, bits: nat, u: Complex)
    requires IsRoot(root) && bits >= 1 && u == UnitRoot(root, bits)
    ensures TwiddleLaws(COMPLEX, RootTwiddle(COMPLEX, u, bits), bits)
  {
    ComplexIsRing();
    HalfHalves(root);
    TwiddlesFromHalves(COMPLEX, Half(root), OnCircle(), bits, u);
  }
}

/** Bit reversal and the discrete Fourier transform, over any commutative ring with roots of unity. */
module FftMath {

  function Pow2(m: nat): (p: nat)
    ensures p >= 1
  {
    if m == 0 then 1 else 2 * Pow2(m - 1)
  }

  lemma {:induction false} Pow2Sum(a: nat, b: nat)
    ensures Pow2(a + b) == Pow2(a) * Pow2(b)
  {
    if a > 0 {
      Pow2Sum(a - 1, b);
    }
  }

  function Block(p: nat, size: nat): nat
    requires size >= 1
  {
    p / size
  }

  function Within(p: nat, size: nat): nat
    requires size >= 1
  {
    p % size
  }

  lemma FactorBound(a: nat, b: nat, s: nat)
    requires a * s < (b + 1) * s
    ensures a <= b
  {
    if a > b {
      ProductGrows(b + 1, a, s);
      assert false;
    }
  }

  lemma ProductGrows(a: nat, b: nat, s: nat)
    requires a <= b
    ensures a * s <= b * s
  {
    assert (b - a) * s >= 0;
  }

  lemma BlockPosition(s: nat, b: nat, k: nat)
    requires k < s
    ensures Block(b * s + k, s) == b && Within(b * s + k, s) == k
  {
    var q, rem := (b * s + k) / s, (b * s + k) % s;
    assert b * s + k == q * s + rem;
    assert (b + 1) * s == b * s + s && (q + 1) * s == q * s + s;
    FactorBound(q, b, s);
    FactorBound(b, q, s);
  }

  // --------------------------------------------------------------------------- bit reversal

  /** The low `bits` bits of `x` in opposite order. */
  function Rev(x: nat, bits: nat): nat {
    if bits == 0 then 0 else (x % 2) * Pow2(bits - 1) + Rev(x / 2, bits - 1)
  }

  lemma {:induction false} RevBound(x: nat, bits: nat)
    ensures Rev(x, bits) < Pow2(bits)
  {
    if bits > 0 {
      RevBound(x / 2, bits - 1);
      assert (x % 2) * Pow2(bits - 1) <= Pow2(bits - 1);
    }
  }

  /** A bit above the top becomes the lowest bit of the result. */
  lemma {:induction false} RevTopBit(c: nat, y: nat, bits: nat)
    requires c < 2 && y < Pow2(bits)
    ensures Rev(c * Pow2(bits) + y, bits + 1) == 2 * Rev(y, bits) + c
  {
    var z := c * Pow2(bits) + y;
    if bits > 0 {
      assert c * Pow2(bits) == 2 * (c * Pow2(bits - 1));
      assert z % 2 == y % 2 && z / 2 == c * Pow2(bits - 1) + y / 2;
      RevTopBit(c, y / 2, bits - 1);
      assert (y % 2) * Pow2(bits) == 2 * ((y % 2) * Pow2(bits - 1));
    } else {
      assert Rev(z / 2, 0) == 0;
    }
  }

  lemma {:induction false} RevInvolution(x: nat, bits: nat)
    requires x < Pow2(bits)
    ensures Rev(Rev(x, bits), bits) == x
  {
    if bits > 0 {
      RevBound(x / 2, bits - 1);
      RevInvolution(x / 2, bits - 1);
      RevTopBit(x % 2, Rev(x / 2, bits - 1), bits - 1);
    }
  }

  // ----------------------------------------------------------------------------------- ring

  datatype Ring<!T> = Ring(zero: T, one: T, minusOne: T, add: (T, T) -> T, mul: (T, T) -> T)

  ghost predicate AddLaw<T>(r: Ring<T>, a: T, b: T, c: T) {
    && r.add(a, b) == r.add(b, a)
    && r.add(r.add(a, b), c) == r.add(a, r.add(b, c))
  }

  ghost predicate MulLaw<T>(r: Ring<T>, a: T, b: T, c: T) {
    && r.mul(a, b) == r.mul(b, a)
    && r.mul(r.mul(a, b), c) == r.mul(a, r.mul(b, c))
    && r.mul(a, r.add(b, c)) == r.add(r.mul(a, b), r.mul(a, c))
  }

  ghost predicate UnitLaw<T>(r: Ring<T>, a: T) {
    r.add(r.zero, a) == a && r.mul(a, r.zero) == r.zero && r.mul(a, r.one) == a
  }

  ghost predicate RingLaws<T(!new)>(r: Ring<T>) {
    && (forall a, b, c :: AddLaw(r, a, b, c))
    && (forall a, b, c :: MulLaw(r, a, b, c))
    && (forall a :: UnitLaw(r, a))
    && r.mul(r.minusOne, r.minusOne) == r.one
  }

  /** One more even term `a` and one more odd term `x * (w * t)` join the sums `e` and `w * o`. */
  lemma CollectTerms<T(!new)>(r: Ring<T>, e: T, o: T, w: T, a: T, x: T, t: T)
    requires RingLaws(r)
    ensures r.add(a, r.add(r.mul(x, r.mul(w, t)), r.add(e, r.mul(w, o))))
         == r.add(r.add(a, e), r.mul(w, r.add(r.mul(x, t), o)))
  {
    var p, q := r.mul(w, o), r.mul(w, r.mul(x, t));
    assert r.mul(x, r.mul(w, t)) == q by {
      assert MulLaw(r, x, w, t) && MulLaw(r, w, x, t);
    }
    assert MulLaw(r, w, r.mul(x, t), o);
    calc {
      r.add(a, r.add(q, r.add(e, p)));
      { assert AddLaw(r, q, e, p); }
      r.add(a, r.add(r.add(q, e), p));
      { assert AddLaw(r, q, e, p) && AddLaw(r, e, q, p); }
      r.add(a, r.add(e, r.add(q, p)));
      { assert AddLaw(r, a, e, r.add(q, p)); }
      r.add(r.add(a, e), r.add(q, p));
    }
  }

  // -------------------------------------------------------------------------------- twiddles

  /** `tw(e, size)` is the root of unity of order `size` to the power `e`. */
  type Twiddle<T> = (nat, nat) -> T

  ghost predicate SumLaw<T>(r: Ring<T>, tw: Twiddle<T>, m: nat, a: nat, b: nat) {
    tw(a + b, Pow2(m)) == r.mul(tw(a, Pow2(m)), tw(b, Pow2(m)))
  }

  ghost predicate DoubleLaw<T>(tw: Twiddle<T>, m: nat, a: nat) {
    tw(2 * a, Pow2(m + 1)) == tw(a, Pow2(m))
  }

  /** The laws of roots of unity for the sizes 1, 2, 4, ... 2^bits. */
  ghost predicate TwiddleLaws<T(!new)>(r: Ring<T>, tw: Twiddle<T>, bits: nat) {
    && (forall a: nat :: tw(a, 1) == r.one)
    && (bits >= 1 ==> tw(1, 2) == r.minusOne)
    && (forall m: nat, a: nat, b: nat :: m <= bits ==> SumLaw(r, tw, m, a, b))
    && (forall m: nat, a: nat :: m < bits ==> DoubleLaw(tw, m, a))
  }

  lemma {:induction false} HalfTurn<T(!new)>(r: Ring<T>, tw: Twiddle<T>, bits: nat, m: nat)
    requires TwiddleLaws(r, tw, bits) && m < bits
    ensures tw(Pow2(m), Pow2(m + 1)) == r.minusOne
  {
    if m > 0 {
      HalfTurn(r, tw, bits, m - 1);
      assert DoubleLaw(tw, m, Pow2(m - 1));
    }
  }

  lemma FullTurn<T(!new)>(r: Ring<T>, tw: Twiddle<T>, bits: nat, m: nat)
    requires RingLaws(r) && TwiddleLaws(r, tw, bits) && m < bits
    ensures tw(Pow2(m), Pow2(m)) == r.one
  {
    if m > 0 {
      HalfTurn(r, tw, bits, m - 1);
      assert SumLaw(r, tw, m, Pow2(m - 1), Pow2(m - 1));
    }
  }

  lemma {:induction false} ZeroExponent<T(!new)>(r: Ring<T>, tw: Twiddle<T>, bits: nat, m: nat)
    requires TwiddleLaws(r, tw, bits) && m <= bits
    ensures tw(0, Pow2(m)) == r.one
  {
    if m > 0 {
      ZeroExponent(r, tw, bits, m - 1);
      assert DoubleLaw(tw, m - 1, 0);
    }
  }

  // ------------------------------------------------------------------- twiddles from one root

  function Power<T>(r: Ring<T>, u: T, n: nat): T {
    if n == 0 then r.one else r.mul(u, Power(r, u, n - 1))
  }

  lemma {:induction false} PowerSum<T(!new)>(r: Ring<T>, u: T, a: nat, b: nat)
    requires RingLaws(r)
    ensures Power(r, u, a + b) == r.mul(Power(r, u, a), Power(r, u, b))
  {
    if a == 0 {
      assert UnitLaw(r, Power(r, u, b)) && MulLaw(r, r.one, Power(r, u, b), r.one);
    } else {
      PowerSum(r, u, a - 1, b);
      assert MulLaw(r, u, Power(r, u, a - 1), Power(r, u, b));
    }
  }

  lemma {:induction false} PowerOfPeriod<T(!new)>(r: Ring<T>, u: T, p: nat, a: nat)
    requires RingLaws(r) && Power(r, u, p) == r.one
    ensures Power(r, u, a * p) == r.one
  {
    if a > 0 {
      PowerOfPeriod(r, u, p, a - 1);
      assert a * p == (a - 1) * p + p;
      PowerSum(r, u, (a - 1) * p, p);
      assert UnitLaw(r, r.one);
    }
  }

  function Quotient(bits: nat, size: nat): nat {
    if size == 0 then 0 else Block(Pow2(bits), size)
  }

  /** exp(-2 pi i e / size) as a power of the root for the largest size. */
  function RootTwiddle<T>(r: Ring<T>, u: T, bits: nat): Twiddle<T> {
    (e: nat, size: nat) => Power(r, u, e * Quotient(bits, size))
  }

  lemma QuotientIsPower(bits: nat, m: nat)
    requires m <= bits
    ensures Quotient(bits, Pow2(m)) == Pow2(bits - m)
  {
    Pow2Sum(bits - m, m);
    BlockPosition(Pow2(m), Pow2(bits - m), 0);
  }

  /** Any element whose 2^(bits-1)-th power is -1 gives twiddles that obey the laws. */
  lemma RootGivesTwiddles<T(!new)>(r: Ring<T>, u: T, bits: nat)
    requires RingLaws(r) && bits >= 1
    requires Power(r, u, Pow2(bits - 1)) == r.minusOne
    ensures TwiddleLaws(r, RootTwiddle(r, u, bits), bits)
  {
    var tw := RootTwiddle(r, u, bits);
    PowerSum(r, u, Pow2(bits - 1), Pow2(bits - 1));
    forall a: nat ensures tw(a, 1) == r.one {
      QuotientIsPower(bits, 0);
      PowerOfPeriod(r, u, Pow2(bits), a);
    }
    QuotientIsPower(bits, 1);
    assert Pow2(1) == 2;
    forall m: nat, a: nat, b: nat | m <= bits ensures SumLaw(r, tw, m, a, b) {
      var q := Quotient(bits, Pow2(m));
      SumOfMultiples(a, b, q);
      PowerSum(r, u, a * q, b * q);
    }
    forall m: nat, a: nat | m < bits ensures DoubleLaw(tw, m, a) {
      QuotientIsPower(bits, m);
      QuotientIsPower(bits, m + 1);
      DoubleOfMultiple(a, Pow2(bits - m - 1));
    }
  }

  lemma SumOfMultiples(a: nat, b: nat, q: nat)
    ensures (a + b) * q == a * q + b * q
  {
  }

  lemma DoubleOfMultiple(a: nat, q: nat)
    ensures (2 * a) * q == a * (2 * q)
  {
  }

  // ------------------------------------------------------------------------------- transform

  /** A signal; the samples of a frame are the values at 0, 1, 2, ... */
  type Signal<T> = nat -> T

  /** The sum of `count` products: positions `pos`, `pos + stride`, ... times exponents `e`, `e + k`, ... */
  function Strided<T>(r: Ring<T>, x: Signal<T>, tw: Twiddle<T>, pos: nat, stride: nat, e: nat, k: nat, count: nat,
          size: nat): T
    decreases count
  {
    if count == 0 then r.zero
    else r.add(r.mul(x(pos), tw(e, size)), Strided(r, x, tw, pos + stride, stride, e + k, k, count - 1, size))
  }

  /** Sum over t <= u < n of x(u) * tw(k * u, n); from t = 0 it is the discrete Fourier transform. */
  function DftFrom<T>(r: Ring<T>, x: Signal<T>, tw: Twiddle<T>, n: nat, k: nat, t: nat): T
    decreases n - t
  {
    if t >= n then r.zero
    else r.add(r.mul(x(t), tw(k * t, n)), DftFrom(r, x, tw, n, k, t + 1))
  }

  function Dft<T>(r: Ring<T>, x: Signal<T>, tw: Twiddle<T>, n: nat, k: nat): T {
    DftFrom(r, x, tw, n, k, 0)
  }

  lemma {:induction false} StridedIsDft<T>(r: Ring<T>, x: Signal<T>, tw: Twiddle<T>, n: nat, k: nat, t: nat)
    requires t <= n
    ensures Strided(r, x, tw, t, 1, k * t, k, n - t, n) == DftFrom(r, x, tw, n, k, t)
    decreases n - t
  {
    if t < n {
      StridedIsDft(r, x, tw, n, k, t + 1);
      assert k * (t + 1) == k * t + k;
    }
  }

  /** Twice as many terms at half the stride split into even and odd ones. */
  lemma {:induction false} SplitEvenOdd<T(!new)>(r: Ring<T>, x: Signal<T>, tw: Twiddle<T>, bits: nat, m: nat, pos: nat,
          stride: nat, e: nat, k: nat, count: nat)
    requires RingLaws(r) && TwiddleLaws(r, tw, bits) && m < bits
    ensures Strided(r, x, tw, pos, stride, 2 * e, k, 2 * count, Pow2(m + 1))
         == r.add(Strided(r, x, tw, pos, 2 * stride, e, k, count, Pow2(m)),
                  r.mul(tw(k, Pow2(m + 1)), Strided(r, x, tw, pos + stride, 2 * stride, e, k, count, Pow2(m))))
    decreases count
  {
    var s, w := Pow2(m), tw(k, Pow2(m + 1));
    if count == 0 {
      assert UnitLaw(r, w) && UnitLaw(r, r.zero);
    } else {
      var pos', e' := pos + 2 * stride, e + k;
      SplitEvenOdd(r, x, tw, bits, m, pos', stride, e', k, count - 1);
      var t := tw(e, s);
      assert DoubleLaw(tw, m, e);
      assert SumLaw(r, tw, m + 1, k, 2 * e);
      CollectTerms(r, Strided(r, x, tw, pos', 2 * stride, e', k, count - 1, s),
                   Strided(r, x, tw, pos' + stride, 2 * stride, e', k, count - 1, s),
                   w, r.mul(x(pos), t), x(pos + stride), t);
      TwoTerms(r, x, tw, pos, stride, 2 * e, k, 2 * count, 2 * s);
    }
  }

  lemma TwoTerms<T>(r: Ring<T>, x: Signal<T>, tw: Twiddle<T>, pos: nat, stride: nat, e: nat, k: nat, count: nat,
          size: nat)
    requires count >= 2
    ensures Strided(r, x, tw, pos, stride, e, k, count, size)
         == r.add(r.mul(x(pos), tw(e, size)),
                  r.add(r.mul(x(pos + stride), tw(k + e, size)),
                        Strided(r, x, tw, pos + 2 * stride, stride, e + 2 * k, k, count - 2, size)))
  {
    assert pos + stride + stride == pos + 2 * stride && e + k + k == e + 2 * k;
    assert Strided(r, x, tw, pos + stride, stride, e + k, k, count - 1, size)
        == r.add(r.mul(x(pos + stride), tw(e + k, size)),
                 Strided(r, x, tw, pos + stride + stride, stride, e + k + k, k, count - 2, size));
  }

  /** The frequency of a transform of 2^m points counts modulo 2^m. */
  lemma {:induction false} StridedPeriodic<T(!new)>(r: Ring<T>, x: Signal<T>, tw: Twiddle<T>, bits: nat, m: nat,
          pos: nat, stride: nat, e: nat, e': nat, k: nat, count: nat)
    requires RingLaws(r) && TwiddleLaws(r, tw, bits) && m < bits
    requires tw(e', Pow2(m)) == tw(e, Pow2(m))
    ensures Strided(r, x, tw, pos, stride, e', k + Pow2(m), count, Pow2(m))
        == Strided(r, x, tw, pos, stride, e, k, count, Pow2(m))
    decreases count
  {
    if count > 0 {
      var s := Pow2(m);
      assert tw(e' + (k + s), s) == tw(e + k, s) by {
        FullTurn(r, tw, bits, m);
        assert SumLaw(r, tw, m, e', k + s) && SumLaw(r, tw, m, k, s) && SumLaw(r, tw, m, e, k);
        assert UnitLaw(r, tw(k, s));
      }
      StridedPeriodic(r, x, tw, bits, m, pos + stride, stride, e + k, e' + (k + s), k, count - 1);
    }
  }

  // --------------------------------------------------------------------------------- stages

  /** The 2^m-point transform at frequency `k` of every 2^(bits-m)-th sample, starting from the
      bit-reversed block number. */
  function BlockValue<T>(r: Ring<T>, x: Signal<T>, tw: Twiddle<T>, bits: nat, m: nat, block: nat, k: nat): T
    requires m <= bits
  {
    Strided(r, x, tw, Rev(block, bits - m), Pow2(bits - m), 0, k, Pow2(m), Pow2(m))
  }

  /** What position `p` holds after `m` butterfly stages. */
  function Level<T>(r: Ring<T>, x: Signal<T>, tw: Twiddle<T>, bits: nat, m: nat, p: nat): T
    requires m <= bits
  {
    BlockValue(r, x, tw, bits, m, Block(p, Pow2(m)), Within(p, Pow2(m)))
  }

  lemma FirstLevel<T(!new)>(r: Ring<T>, x: Signal<T>, tw: Twiddle<T>, bits: nat, p: nat)
    requires RingLaws(r) && TwiddleLaws(r, tw, bits)
    ensures Level(r, x, tw, bits, 0, p) == x(Rev(p, bits))
  {
    var o := Rev(p, bits);
    assert p % 1 == 0 && p / 1 == p;
    assert Strided(r, x, tw, o + Pow2(bits), Pow2(bits), 0, 0, 0, 1) == r.zero;
    assert UnitLaw(r, x(o)) && AddLaw(r, x(o), r.zero, r.zero);
  }

  lemma LastLevel<T>(r: Ring<T>, x: Signal<T>, tw: Twiddle<T>, bits: nat, p: nat)
    requires p < Pow2(bits)
    ensures Level(r, x, tw, bits, bits, p) == Dft(r, x, tw, Pow2(bits), p)
  {
    BlockPosition(Pow2(bits), 0, p);
    StridedIsDft(r, x, tw, Pow2(bits), p, 0);
  }

  /** One butterfly makes a value pair of a 2^(m+1)-point transform from two 2^m-point ones. */
  lemma BlockButterfly<T(!new)>(r: Ring<T>, x: Signal<T>, tw: Twiddle<T>, bits: nat, m: nat, b: nat, k: nat)
    requires RingLaws(r) && TwiddleLaws(r, tw, bits) && m < bits && k < Pow2(m)
    ensures var w := tw(k, Pow2(m + 1));
            var even, odd := BlockValue(r, x, tw, bits, m, 2 * b, k), BlockValue(r, x, tw, bits, m, 2 * b + 1, k);
            && BlockValue(r, x, tw, bits, m + 1, b, k) == r.add(even, r.mul(w, odd))
            && BlockValue(r, x, tw, bits, m + 1, b, k + Pow2(m)) == r.add(even, r.mul(r.mul(w, r.minusOne), odd))
  {
    var s := Pow2(m);
    var stride := Pow2(bits - m - 1);
    var pos := Rev(b, bits - m - 1);
    assert Pow2(bits - m) == 2 * stride;
    assert Rev(2 * b, bits - m) == pos && Rev(2 * b + 1, bits - m) == stride + pos;
    SplitEvenOdd(r, x, tw, bits, m, pos, stride, 0, k, s);
    SplitEvenOdd(r, x, tw, bits, m, pos, stride, 0, k + s, s);
    StridedPeriodic(r, x, tw, bits, m, pos, 2 * stride, 0, 0, k, s);
    StridedPeriodic(r, x, tw, bits, m, pos + stride, 2 * stride, 0, 0, k, s);
    HalfTurn(r, tw, bits, m);
    assert SumLaw(r, tw, m + 1, k, s);
  }

  /** The same at the two array positions the loop visits. */
  lemma Butterfly<T(!new)>(r: Ring<T>, x: Signal<T>, tw: Twiddle<T>, bits: nat, m: nat, b: nat, k: nat)
    requires RingLaws(r) && TwiddleLaws(r, tw, bits) && m < bits && k < Pow2(m)
    ensures var s := Pow2(m);
            var w := tw(k, Pow2(m + 1));
            var even, odd := b * (2 * s) + k, b * (2 * s) + k + s;
            && Level(r, x, tw, bits, m + 1, even)
               == r.add(Level(r, x, tw, bits, m, even), r.mul(w, Level(r, x, tw, bits, m, odd)))
            && Level(r, x, tw, bits, m + 1, odd)
               == r.add(Level(r, x, tw, bits, m, even), r.mul(r.mul(w, r.minusOne), Level(r, x, tw, bits, m, odd)))
  {
    var s := Pow2(m);
    BlockPosition(2 * s, b, k);
    BlockPosition(2 * s, b, k + s);
    EvenOddBlocks(s, b, k);
    BlockPosition(s, 2 * b, k);
    BlockPosition(s, 2 * b + 1, k);
    BlockButterfly(r, x, tw, bits, m, b, k);
  }

  lemma EvenOddBlocks(s: nat, b: nat, k: nat)
    ensures b * (2 * s) + k == (2 * b) * s + k
    ensures b * (2 * s) + k + s == (2 * b + 1) * s + k
  {
  }
}

/** chronicle/src/onnx/asr.rs: the in-place radix-2 transform over exact reals. */
module Fft {
  import opened FftMath

  // ------------------------------------------------------------------------ complex numbers

  datatype Complex = Complex(re: real, im: real)

  const ZERO := Complex(0.0, 0.0)
  const ONE := Complex(1.0, 0.0)
  const MINUS_ONE := Complex(-1.0, 0.0)

  function Add(a: Complex, b: Complex): Complex {
    Complex(a.re + b.re, a.im + b.im)
  }

  function Sub(a: Complex, b: Complex): Complex {
    Complex(a.re - b.re, a.im - b.im)
  }

  function Mul(a: Complex, b: Complex): Complex {
    Complex(a.re * b.re - a.im * b.im, a.re * b.im + a.im * b.re)
  }

  const COMPLEX: Ring<Complex> := Ring(ZERO, ONE, MINUS_ONE, Add, Mul)

  lemma ComplexMul(a: Complex, b: Complex, c: Complex)
    ensures Mul(a, b) == Mul(b, a)
    ensures Mul(Mul(a, b), c) == Mul(a, Mul(b, c))
    ensures Mul(a, Add(b, c)) == Add(Mul(a, b), Mul(a, c))
  {
  }

  lemma ComplexIsRing()
    ensures RingLaws(COMPLEX)
  {
    forall a, b, c ensures MulLaw(COMPLEX, a, b, c) {
      ComplexMul(a, b, c);
    }
    assert forall a, b, c :: AddLaw(COMPLEX, a, b, c);
    assert forall a :: UnitLaw(COMPLEX, a);
  }

  lemma MinusOneSubtracts(a: Complex, w: Complex, b: Complex)
    ensures Add(a, Mul(Mul(w, MINUS_ONE), b)) == Sub(a, Mul(w, b))
  {
  }

  const MINUS_I := Complex(0.0, -1.0)

  lemma MulByMinusI(v: Complex)
    ensures Mul(MINUS_I, v) == Complex(v.im, -v.re)
  {
  }

  lemma MinusISquared()
    ensures Power(COMPLEX, MINUS_I, 2) == MINUS_ONE
  {
    MulByMinusI(ONE);
    MulByMinusI(MINUS_I);
    assert Power(COMPLEX, MINUS_I, 1) == Mul(MINUS_I, Power(COMPLEX, MINUS_I, 0));
    assert Power(COMPLEX, MINUS_I, 2) == Mul(MINUS_I, Power(COMPLEX, MINUS_I, 1));
  }

  /** The powers of -i are lawful twiddles for four points, so the laws required below can be met. */
  lemma FourPointLaws()
    ensures TwiddleLaws(COMPLEX, RootTwiddle(COMPLEX, MINUS_I, 2), 2)
  {
    ComplexIsRing();
    MinusISquared();
    assert Pow2(1) == 2;
    RootGivesTwiddles(COMPLEX, MINUS_I, 2);
  }

  function Samples(input: seq<real>): Signal<Complex> {
    (i: nat) => if i < |input| then Complex(input[i], 0.0) else ZERO
  }

  // --------------------------------------------------------------------------- bit reversal

  const U32 := 0x1_0000_0000

  /** What the loop still makes of the accumulator `r` and the remaining bits of `y`. */
  function Pending(r: nat, y: nat, bits: nat): nat
    decreases bits
  {
    if bits == 0 then r else Pending(2 * r + y % 2, y / 2, bits - 1)
  }

  lemma {:induction false} PendingIsRev(r: nat, y: nat, bits: nat)
    ensures Pending(r, y, bits) == r * Pow2(bits) + Rev(y, bits)
    decreases bits
  {
    if bits > 0 {
      PendingIsRev(2 * r + y % 2, y / 2, bits - 1);
      CarryBit(r, y % 2, Pow2(bits - 1));
    }
  }

  lemma CarryBit(r: nat, c: nat, p: nat)
    ensures (2 * r + c) * p == r * (2 * p) + c * p
  {
  }

  /** Shifts on `u32`: bits above 31 are lost. */
  method BitReverse(x: nat, numBits: nat) returns (result: nat)
    requires x < U32
    ensures result == Rev(x, numBits) % U32
    ensures numBits <= 32 ==> result == Rev(x, numBits)
  {
    var y: nat := x;
    result := 0;
    ghost var whole: nat := 0;
    for i := 0 to numBits
      invariant result == whole % U32
      invariant Pending(whole, y, numBits - i) == Pending(0, x, numBits)
    {
      ShiftCuts(whole, y % 2);
      result := (result * 2) % U32 + y % 2;
      whole := 2 * whole + y % 2;
      y := y / 2;
    }
    PendingIsRev(0, x, numBits);
    if numBits <= 32 { RevFits(x, numBits); }
  }

  lemma ShiftCuts(whole: nat, bit: nat)
    requires bit < 2
    ensures ((whole % U32) * 2) % U32 + bit == (2 * whole + bit) % U32
  {
    var q, r := whole / U32, whole % U32;
    if 2 * r < U32 {
      Remainder(2 * r, 0, 2 * r);
      Remainder(2 * whole + bit, 2 * q, 2 * r + bit);
    } else {
      Remainder(2 * r, 1, 2 * r - U32);
      Remainder(2 * whole + bit, 2 * q + 1, 2 * r - U32 + bit);
    }
  }

  lemma Remainder(x: nat, q: nat, r: nat)
    requires x == U32 * q + r && r < U32
    ensures x % U32 == r
  {
  }

  lemma {:induction false} Pow2Monotone(a: nat, b: nat)
    requires a <= b
    ensures Pow2(a) <= Pow2(b)
    decreases b
  {
    if a < b {
      Pow2Monotone(a, b - 1);
    }
  }

  lemma Pow2Is32()
    ensures Pow2(32) == U32
  {
    assert Pow2(8) == 0x100;
    Pow2Sum(8, 8);
    Pow2Sum(16, 16);
  }

  lemma AtMost32(bits: nat)
    requires bits <= 32
    ensures Pow2(bits) <= U32
  {
    Pow2Is32();
    Pow2Monotone(bits, 32);
  }

  lemma RevFits(x: nat, bits: nat)
    requires bits <= 32
    ensures Rev(x, bits) < U32
  {
    AtMost32(bits);
    RevBound(x, bits);
  }

  /** What the loop over the indices of a frame finds for index `i`. */
  function ReversedWord(i: nat, bits: nat): nat {
    Rev(i % U32, bits) % U32
  }

  lemma WordIsReversal(i: nat, bits: nat)
    requires i < Pow2(bits) && bits <= 32
    ensures ReversedWord(i, bits) == Rev(i, bits)
  {
    AtMost32(bits);
    RevFits(i, bits);
    Remainder(i, 0, i);
    Remainder(Rev(i, bits), 0, Rev(i, bits));
  }

  lemma WordCutsOne(bits: nat)
    requires bits > 32
    ensures 1 < Pow2(bits) && ReversedWord(1, bits) < Rev(1, bits)
  {
    Pow2Is32();
    Pow2Monotone(32, bits - 1);
    RevOfOne(bits);
  }

  /** These are the reversals exactly when the frame has no more than 2^32 samples: in a longer one index 1 is
      not sent to the middle. */
  lemma ReversesExactly(bits: nat)
    ensures (forall i: nat :: i < Pow2(bits) ==> ReversedWord(i, bits) == Rev(i, bits)) <==> bits <= 32
  {
    if bits <= 32 {
      forall i: nat | i < Pow2(bits) ensures ReversedWord(i, bits) == Rev(i, bits) {
        WordIsReversal(i, bits);
      }
    } else {
      WordCutsOne(bits);
    }
  }

  lemma RevOfOne(bits: nat)
    requires bits > 0
    ensures Rev(1, bits) == Pow2(bits - 1)
  {
    RevOfZero(bits - 1);
    assert Rev(1, bits) == 1 * Pow2(bits - 1) + Rev(1 / 2, bits - 1);
  }

  lemma {:induction false} RevOfZero(bits: nat)
    ensures Rev(0, bits) == 0
  {
    if bits > 0 {
      RevOfZero(bits - 1);
    }
  }

  lemma RevPermutes(bits: nat, p: nat)
    requires p < Pow2(bits)
    ensures Rev(p, bits) < Pow2(bits) && Rev(Rev(p, bits), bits) == p
  {
    RevBound(p, bits);
    RevInvolution(p, bits);
  }

  /** Where the value at `p` comes from once positions below `i` have been visited: a pair
      {p, Rev(p)} has been swapped when its smaller member has. */
  function Origin(p: nat, i: nat, bits: nat): nat {
    if p < i || Rev(p, bits) < i then Rev(p, bits) else p
  }

  ghost predicate CameFrom(s: seq<real>, s0: seq<real>, i: nat, bits: nat, p: nat) {
    p < |s| && Origin(p, i, bits) < |s0| && s[p] == s0[Origin(p, i, bits)]
  }

  ghost predicate Arranged(s: seq<real>, s0: seq<real>, i: nat, bits: nat) {
    && |s| == |s0| && Pow2(bits) <= |s|
    && (forall p: nat :: p < Pow2(bits) ==> CameFrom(s, s0, i, bits, p))
    && s[Pow2(bits)..] == s0[Pow2(bits)..]
  }

  function SwapAt(s: seq<real>, i: nat, j: nat): seq<real>
    requires i < |s| && j < |s|
  {
    s[i := s[j]][j := s[i]]
  }

  /** One visit, at one position: `r` and `j` are the partners of `p` and `i`. */
  lemma ArrangeAt(s: seq<real>, s0: seq<real>, i: nat, j: nat, p: nat, r: nat)
    requires |s| == |s0| && i < |s| && j < |s| && p < |s| && r < |s|
    requires (r == i <==> p == j) && (r == j <==> p == i)
    requires s[p] == s0[if p < i || r < i then r else p]
    requires s[i] == s0[if j < i then j else i] && s[j] == s0[if j < i then i else j]
    ensures (if i < j then SwapAt(s, i, j) else s)[p] == s0[if p < i + 1 || r < i + 1 then r else p]
  {
  }

  lemma ArrangeOneAt(s: seq<real>, s0: seq<real>, i: nat, bits: nat, p: nat)
    requires Arranged(s, s0, i, bits) && i < Pow2(bits) && p < Pow2(bits)
    ensures Rev(i, bits) < |s| &&
            CameFrom(if i < Rev(i, bits) then SwapAt(s, i, Rev(i, bits)) else s, s0, i + 1, bits, p)
  {
    var j := Rev(i, bits);
    RevPermutes(bits, i);
    RevPermutes(bits, p);
    assert CameFrom(s, s0, i, bits, i) && CameFrom(s, s0, i, bits, j) && CameFrom(s, s0, i, bits, p);
    ArrangeAt(s, s0, i, j, p, Rev(p, bits));
  }

  lemma ArrangeOne(s: seq<real>, s0: seq<real>, i: nat, bits: nat)
    requires Arranged(s, s0, i, bits) && i < Pow2(bits)
    ensures Rev(i, bits) < |s|
    ensures Arranged(if i < Rev(i, bits) then SwapAt(s, i, Rev(i, bits)) else s, s0, i + 1, bits)
  {
    RevPermutes(bits, i);
    var j, n := Rev(i, bits), Pow2(bits);
    var t := if i < j then SwapAt(s, i, j) else s;
    var next := i + 1;
    forall p: nat | p < n ensures CameFrom(t, s0, next, bits, p) {
      ArrangeOneAt(s, s0, i, bits, p);
    }
    assert t[n..] == s[n..];
  }

  method SwapBoth(re: array<real>, im: array<real>, i: nat, j: nat)
    requires re != im && i < re.Length && i < im.Length && j < re.Length && j < im.Length
    modifies re, im
    ensures re[..] == SwapAt(old(re[..]), i, j) && im[..] == SwapAt(old(im[..]), i, j)
  {
    re[i], re[j] := re[j], re[i];
    im[i], im[j] := im[j], im[i];
  }

  /** The guarded swap loop moves the entry at Rev(p) to position p, in both arrays. */
  method Permute(re: array<real>, im: array<real>, n: nat, bits: nat)
    requires n == Pow2(bits) && bits <= 32
    requires re != im && n <= re.Length && n <= im.Length
    modifies re, im
    ensures Arranged(re[..], old(re[..]), n, bits) && Arranged(im[..], old(im[..]), n, bits)
  {
    Pow2Is32();
    Pow2Monotone(bits, 32);
    for i := 0 to n
      invariant Arranged(re[..], old(re[..]), i, bits) && Arranged(im[..], old(im[..]), i, bits)
    {
      ArrangeOne(re[..], old(re[..]), i, bits);
      ArrangeOne(im[..], old(im[..]), i, bits);
      var j := BitReverse(i, bits);
      if i < j {
        SwapBoth(re, im, i, j);
      }
    }
  }

  // ----------------------------------------------------------------------------- butterflies

  ghost predicate AtLevel(re: real, im: real, x: seq<real>, tw: Twiddle<Complex>, bits: nat, m: nat, p: nat)
    requires m <= bits
  {
    Complex(re, im) == Level(COMPLEX, Samples(x), tw, bits, m, p)
  }

  /** One butterfly of the source on the pair (even, odd). */
  lemma ComplexButterfly(x: seq<real>, tw: Twiddle<Complex>, bits: nat, m: nat, b: nat, k: nat, e: Complex, o: Complex)
    requires TwiddleLaws(COMPLEX, tw, bits) && m < bits && k < Pow2(m)
    requires var even := b * (2 * Pow2(m)) + k;
             && e == Level(COMPLEX, Samples(x), tw, bits, m, even)
             && o == Level(COMPLEX, Samples(x), tw, bits, m, even + Pow2(m))
    ensures var even, t := b * (2 * Pow2(m)) + k, Mul(tw(k, 2 * Pow2(m)), o);
            && Level(COMPLEX, Samples(x), tw, bits, m + 1, even) == Add(e, t)
            && Level(COMPLEX, Samples(x), tw, bits, m + 1, even + Pow2(m)) == Sub(e, t)
  {
    ComplexIsRing();
    Butterfly(COMPLEX, Samples(x), tw, bits, m, b, k);
    MinusOneSubtracts(e, tw(k, 2 * Pow2(m)), o);
  }

  method ApplyButterfly(re: array<real>, im: array<real>, even: nat, odd: nat, w: Complex)
    requires re != im && even != odd
    requires even < re.Length && even < im.Length && odd < re.Length && odd < im.Length
    modifies re, im
    ensures var e, t := old(Complex(re[even], im[even])), Mul(w, old(Complex(re[odd], im[odd])));
            Complex(re[even], im[even]) == Add(e, t) && Complex(re[odd], im[odd]) == Sub(e, t)
    ensures forall p :: 0 <= p < re.Length && p != even && p != odd ==> re[p] == old(re[p])
    ensures forall p :: 0 <= p < im.Length && p != even && p != odd ==> im[p] == old(im[p])
  {
    var tr := w.re * re[odd] - w.im * im[odd];
    var ti := w.re * im[odd] + w.im * re[odd];
    re[odd] := re[even] - tr;
    im[odd] := im[even] - ti;
    re[even] := re[even] + tr;
    im[even] := im[even] + ti;
  }

  /** A butterfly lifts its pair by one level. */
  method RaisePair(x: seq<real>, re: array<real>, im: array<real>, even: nat, odd: nat, w: Complex,
          ghost tw: Twiddle<Complex>, ghost bits: nat, ghost m: nat, ghost b: nat, ghost k: nat)
    requires TwiddleLaws(COMPLEX, tw, bits) && m < bits && k < Pow2(m) && w == tw(k, 2 * Pow2(m))
    requires even == b * (2 * Pow2(m)) + k && odd == even + Pow2(m)
    requires re != im && odd < re.Length && odd < im.Length
    requires AtLevel(re[even], im[even], x, tw, bits, m, even) && AtLevel(re[odd], im[odd], x, tw, bits, m, odd)
    modifies re, im
    ensures AtLevel(re[even], im[even], x, tw, bits, m + 1, even) && AtLevel(re[odd], im[odd], x, tw, bits, m + 1, odd)
    ensures forall p :: 0 <= p < re.Length && p != even && p != odd ==> re[p] == old(re[p])
    ensures forall p :: 0 <= p < im.Length && p != even && p != odd ==> im[p] == old(im[p])
  {
    ghost var e, o := Complex(re[even], im[even]), Complex(re[odd], im[odd]);
    ComplexButterfly(x, tw, bits, m, b, k, e, o);
    ApplyButterfly(re, im, even, odd, w);
  }

  /** The inner loop: all butterflies of the block that starts at `start`. */
  method TransformBlock(x: seq<real>, re: array<real>, im: array<real>, start: nat, half: nat, tw: Twiddle<Complex>,
          ghost bits: nat, ghost m: nat, ghost b: nat)
    requires m < bits && half == Pow2(m) && start == b * (2 * half)
    requires re != im && start + 2 * half <= re.Length && start + 2 * half <= im.Length
    requires TwiddleLaws(COMPLEX, tw, bits)
    requires forall p :: start <= p < start + 2 * half ==> AtLevel(re[p], im[p], x, tw, bits, m, p)
    modifies re, im
    ensures forall p :: start <= p < start + 2 * half ==> AtLevel(re[p], im[p], x, tw, bits, m + 1, p)
    ensures forall p :: 0 <= p < re.Length && !(start <= p < start + 2 * half) ==> re[p] == old(re[p])
    ensures forall p :: 0 <= p < im.Length && !(start <= p < start + 2 * half) ==> im[p] == old(im[p])
  {
    for k := 0 to half
      invariant forall p :: start <= p < start + k || start + half <= p < start + half + k ==>
                  AtLevel(re[p], im[p], x, tw, bits, m + 1, p)
      invariant forall p :: start + k <= p < start + half || start + half + k <= p < start + 2 * half ==>
                  AtLevel(re[p], im[p], x, tw, bits, m, p)
      invariant forall p :: 0 <= p < re.Length && !(start <= p < start + 2 * half) ==> re[p] == old(re[p])
      invariant forall p :: 0 <= p < im.Length && !(start <= p < start + 2 * half) ==> im[p] == old(im[p])
    {
      var even := start + k;
      var odd := start + k + half;
      RaisePair(x, re, im, even, odd, tw(k, 2 * half), tw, bits, m, b, k);
    }
  }

  lemma BlockFits(b: nat, size: nat, q: nat)
    requires b * size < q * size
    ensures (b + 1) * size <= q * size
  {
    if b >= q {
      ProductGrows(q, b, size);
      assert false;
    }
    ProductGrows(b + 1, q, size);
  }

  /** Block after block: one stage turns level m into level m + 1 everywhere. */
  method TransformStage(x: seq<real>, re: array<real>, im: array<real>, n: nat, half: nat, tw: Twiddle<Complex>,
          ghost bits: nat, ghost m: nat)
    requires m < bits && half == Pow2(m) && n == Pow2(bits)
    requires re != im && n <= re.Length && n <= im.Length
    requires TwiddleLaws(COMPLEX, tw, bits)
    requires forall p :: 0 <= p < n ==> AtLevel(re[p], im[p], x, tw, bits, m, p)
    modifies re, im
    ensures forall p :: 0 <= p < n ==> AtLevel(re[p], im[p], x, tw, bits, m + 1, p)
    ensures re[n..] == old(re[n..]) && im[n..] == old(im[n..])
  {
    var size := 2 * half;
    ghost var q := Pow2(bits - m - 1);
    Pow2Sum(bits - m - 1, m + 1);
    var start := 0;
    ghost var b := 0;
    while start < n
      invariant start == b * size && start <= n == q * size
      invariant forall p :: 0 <= p < start ==> AtLevel(re[p], im[p], x, tw, bits, m + 1, p)
      invariant forall p :: start <= p < n ==> AtLevel(re[p], im[p], x, tw, bits, m, p)
      invariant re[n..] == old(re[n..]) && im[n..] == old(im[n..])
    {
      BlockFits(b, size, q);
      assert (b + 1) * size == start + size;
      TransformBlock(x, re, im, start, half, tw, bits, m, b);
      start := start + size;
      b := b + 1;
    }
  }

  // ------------------------------------------------------------------------------- main result

  lemma Pow2Halves(k: nat)
    ensures Pow2(k) % 2 == 0 <==> k > 0
    ensures k > 0 ==> Pow2(k) / 2 == Pow2(k - 1)
  {
  }

  /** `trailing_zeros` of a power of two. */
  method TrailingZeros(n: nat, ghost bits: nat) returns (zeros: nat)
    requires n == Pow2(bits)
    ensures zeros == bits
  {
    zeros := 0;
    var rest := n;
    Pow2Halves(bits);
    while rest % 2 == 0
      invariant zeros <= bits && rest == Pow2(bits - zeros)
      invariant rest % 2 == 0 <==> zeros < bits
      decreases bits - zeros
    {
      Pow2Halves(bits - zeros);
      rest := rest / 2;
      zeros := zeros + 1;
      Pow2Halves(bits - zeros);
    }
  }

  method Load(input: seq<real>, re: array<real>, im: array<real>)
    requires re != im && |input| <= re.Length && |input| <= im.Length
    modifies re, im
    ensures re[..|input|] == input && forall p :: 0 <= p < |input| ==> im[p] == 0.0
    ensures re[|input|..] == old(re[|input|..]) && im[|input|..] == old(im[|input|..])
  {
    var n := |input|;
    for i := 0 to n
      invariant re[..i] == input[..i] && forall p :: 0 <= p < i ==> im[p] == 0.0
      invariant re[n..] == old(re[n..]) && im[n..] == old(im[n..])
    {
      re[i] := input[i];
      im[i] := 0.0;
    }
  }

  /** Stage after stage, from level 0 to the last one. */
  method TransformAll(x: seq<real>, re: array<real>, im: array<real>, n: nat, tw: Twiddle<Complex>, ghost bits: nat)
    requires n == Pow2(bits)
    requires re != im && n <= re.Length && n <= im.Length
    requires TwiddleLaws(COMPLEX, tw, bits)
    requires forall p :: 0 <= p < n ==> AtLevel(re[p], im[p], x, tw, bits, 0, p)
    modifies re, im
    ensures forall p :: 0 <= p < n ==> AtLevel(re[p], im[p], x, tw, bits, bits, p)
    ensures re[n..] == old(re[n..]) && im[n..] == old(im[n..])
  {
    var size := 2;
    ghost var m := 0;
    while size <= n
      invariant m <= bits && size == 2 * Pow2(m)
      invariant forall p :: 0 <= p < n ==> AtLevel(re[p], im[p], x, tw, bits, m, p)
      invariant re[n..] == old(re[n..]) && im[n..] == old(im[n..])
      decreases bits - m
    {
      assert m < bits;
      TransformStage(x, re, im, n, size / 2, tw, bits, m);
      size := size * 2;
      m := m + 1;
    }
    assert m == bits by {
      if m < bits {
        Pow2Monotone(m + 1, bits);
      }
    }
  }

  lemma PermutedIsFirstLevel(x: seq<real>, re: seq<real>, im: seq<real>, re0: seq<real>, im0: seq<real>,
          tw: Twiddle<Complex>, bits: nat, p: nat)
    requires TwiddleLaws(COMPLEX, tw, bits) && |x| == Pow2(bits)
    requires Arranged(re, re0, |x|, bits) && Arranged(im, im0, |x|, bits)
    requires re0[..|x|] == x && forall k :: 0 <= k < |x| ==> im0[k] == 0.0
    requires p < |x|
    ensures AtLevel(re[p], im[p], x, tw, bits, 0, p)
  {
    ComplexIsRing();
    FirstLevel(COMPLEX, Samples(x), tw, bits, p);
    RevPermutes(bits, p);
    assert Origin(p, |x|, bits) == Rev(p, bits);
    assert CameFrom(re, re0, |x|, bits, p) && CameFrom(im, im0, |x|, bits, p);
    assert re0[Rev(p, bits)] == re0[..|x|][Rev(p, bits)];
  }

  /** Output k is the DFT sum over the whole frame; nothing beyond the frame is touched. */
  method FftRadix2(input: seq<real>, realOut: array<real>, imagOut: array<real>, tw: Twiddle<Complex>, ghost bits: nat)
    requires |input| == Pow2(bits) && bits <= 32
    requires realOut != imagOut && |input| <= realOut.Length && |input| <= imagOut.Length
    requires TwiddleLaws(COMPLEX, tw, bits)
    modifies realOut, imagOut
    ensures forall k :: 0 <= k < |input| ==>
              Complex(realOut[k], imagOut[k]) == Dft(COMPLEX, Samples(input), tw, |input|, k)
    ensures realOut[|input|..] == old(realOut[|input|..]) && imagOut[|input|..] == old(imagOut[|input|..])
  {
    var n := |input|;
    Load(input, realOut, imagOut);
    ghost var re0, im0 := realOut[..], imagOut[..];
    var zeros := TrailingZeros(n, bits);
    Permute(realOut, imagOut, n, zeros);
    forall p | 0 <= p < n ensures AtLevel(realOut[p], imagOut[p], input, tw, bits, 0, p) {
      PermutedIsFirstLevel(input, realOut[..], imagOut[..], re0, im0, tw, bits, p);
    }
    assert realOut[n..] == re0[n..] && imagOut[n..] == im0[n..];
    TransformAll(input, realOut, imagOut, n, tw, bits);
    forall k | 0 <= k < n ensures Complex(realOut[k], imagOut[k]) == Dft(COMPLEX, Samples(input), tw, n, k) {
      LastLevel(COMPLEX, Samples(input), tw, bits, k);
    }
  }
}

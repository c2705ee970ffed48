// Multi-word multiplication (alu.h and test-mul.cc): words of 2q bits are
// multiplied by their halves of q bits.
module Multiplication {
  import opened Powers
  import opened Words

  datatype Product = Product(hi: nat, lo: nat)

  /** The double-width value hi:lo, for words of modulus w. */
  function Whole(p: Product, w: nat): int {
    p.hi * w + p.lo
  }

  /**
   * The sum of the four partial products; m is the modulus of a half-word, w of a word, and every sum is cut
   * to a word.
   */
  function Combine(m: nat, w: nat, z0: nat, z1: nat, z2: nat, z3: nat): Product
    requires m > 0 && w > 0
  {
    var z4 := Mask(z1 + Shift(z0, m), w);
    var c1 := Mask(z2 + Mask(z4, m), w);
    var hi := Mask(z3 + Shift(z4, m) + Shift(c1, m), w);
    var lo := Mask(c1 * m + Mask(z0, m), w);
    Product(hi, lo)
  }

  /** A two-digit number in base m is below m * m. */
  lemma TwoDigits(d1: nat, d0: nat, m: nat, w: nat)
    requires d1 < m && d0 < m && w == m * m
    ensures d1 * m + d0 < w
  {
    MulMono(d1, m - 1, m);
    assert (m - 1) * m == m * m - m;
  }

  lemma ProductBelow(x: nat, y: nat, w: nat)
    requires x < w && y < w
    ensures 0 <= x * y < w * w
  {
    MulMono(x, w, y);
    assert w * y == y * w;
    MulMono(y, w - 1, w);
    assert (w - 1) * w == w * w - w;
  }

  /** A product of digits leaves room for two more digits in a word. */
  lemma DigitProduct(x: nat, y: nat, m: nat, w: nat)
    requires x < m && y < m && w == m * m
    ensures x * y <= w - m - m + 1
  {
    MulMono(x, m - 1, y);
    assert (m - 1) * y == y * (m - 1);
    MulMono(y, m - 1, m - 1);
    assert (m - 1) * (m - 1) == m * m - m - m + 1;
  }

  /** The product of words written by their halves. */
  lemma Halves(x0: int, x1: int, y0: int, y1: int, m: int)
    ensures (x1 * m + x0) * (y1 * m + y0) == (x1 * y1) * (m * m) + (x1 * y0 + x0 * y1) * m + x0 * y0
  {
    assert (x1 * m + x0) * (y1 * m + y0) == (x1 * m) * (y1 * m) + (x1 * m) * y0 + x0 * (y1 * m) + x0 * y0;
    assert (x1 * m) * (y1 * m) == (x1 * y1) * (m * m);
    assert (x1 * m) * y0 == (x1 * y0) * m;
    assert x0 * (y1 * m) == (x0 * y1) * m;
  }

  /** The partial sums regrouped by words; a, b, c are the carries out of z0, z4 and c1. */
  lemma Regroup(z0: int, z1: int, z2: int, z3: int, m: int, a: int, r0: int, b: int, r4: int, c: int, r1: int)
    requires z0 == a * m + r0 && z1 + a == b * m + r4 && z2 + r4 == c * m + r1
    ensures z3 * (m * m) + (z1 + z2) * m + z0 == (z3 + b + c) * (m * m) + (r1 * m + r0)
  {
    assert (z1 + z2) * m + a * m == (z1 + a) * m + z2 * m;
    assert (b * m + r4) * m == b * (m * m) + r4 * m;
    assert (c * m + r1) * m == c * (m * m) + r1 * m;
    assert (z2 + r4) * m == z2 * m + r4 * m;
  }

  /** The upper half of a word fits a half-word. */
  lemma SmallQuotient(z: nat, m: nat, w: nat)
    requires m > 0 && w == m * m && z < w
    ensures Shift(z, m) < m
  {
    ShiftMask(z, m);
    if Shift(z, m) >= m {
      MulMono(m, Shift(z, m), m);
    }
  }

  /** The low word: shifting c1 up drops exactly its carry. */
  lemma LowWord(m: nat, w: nat, c: nat, r1: nat, r0: nat)
    requires w == m * m && w > 0 && r1 < m && r0 < m
    ensures Mask((c * m + r1) * m + r0, w) == r1 * m + r0
  {
    assert (c * m + r1) * m == c * (m * m) + r1 * m;
    TwoDigits(r1, r0, m, w);
    MaskBy((c * m + r1) * m + r0, w, c, r1 * m + r0);
  }

  lemma HighFits(hi: int, lo: int, w: int, whole: int)
    requires 0 <= lo < w && whole == hi * w + lo && 0 <= whole < w * w
    ensures 0 <= hi < w
  {
    if hi >= w {
      MulMono(w, hi, w);
    } else if hi < 0 {
      MulMono(hi, -1, w);
    }
  }

  /** Combine, when no addition overflows. */
  lemma CombineSteps(m: nat, w: nat, z0: nat, z1: nat, z2: nat, z3: nat, whole: int)
    requires m > 0 && w == m * m && z0 < w && z1 <= w - m - m + 1 && z2 <= w - m - m + 1
    requires whole == z3 * (m * m) + (z1 + z2) * m + z0 && 0 <= whole < w * w
    ensures w > 0
    ensures var p := Combine(m, w, z0, z1, z2, z3);
      Whole(p, w) == whole && p.hi < w && p.lo < w
  {
    var a, r0 := Shift(z0, m), Mask(z0, m);
    ShiftMask(z0, m);
    SmallQuotient(z0, m, w);
    var z4 := z1 + a;
    var b, r4 := Shift(z4, m), Mask(z4, m);
    ShiftMask(z4, m);
    var c1 := z2 + r4;
    var c, r1 := Shift(c1, m), Mask(c1, m);
    ShiftMask(c1, m);
    Regroup(z0, z1, z2, z3, m, a, r0, b, r4, c, r1);
    LowWord(m, w, c, r1, r0);
    TwoDigits(r1, r0, m, w);
    HighFits(z3 + b + c, r1 * m + r0, w, whole);
  }

  /** The four partial products of x and y, combined. */
  function ByHalves(m: nat, w: nat, x: nat, y: nat): Product
    requires m > 0 && w > 0
  {
    var x0, x1, y0, y1 := Mask(x, m), Shift(x, m), Mask(y, m), Shift(y, m);
    Combine(m, w, x0 * y0, x1 * y0, x0 * y1, x1 * y1)
  }

  /** The partial products fit, and add up to the product of the words. */
  lemma PartialProducts(m: nat, w: nat, x0: nat, x1: nat, y0: nat, y1: nat, z0: nat, z1: nat, z2: nat, z3: nat)
    requires m > 0 && w == m * m && x0 < m && x1 < m && y0 < m && y1 < m
    requires z0 == x0 * y0 && z1 == x1 * y0 && z2 == x0 * y1 && z3 == x1 * y1
    ensures w > 0
    ensures var p := Combine(m, w, z0, z1, z2, z3);
      Whole(p, w) == (x1 * m + x0) * (y1 * m + y0) && p.hi < w && p.lo < w
  {
    Halves(x0, x1, y0, y1, m);
    DigitProduct(x0, y0, m, w);
    DigitProduct(x1, y0, m, w);
    DigitProduct(x0, y1, m, w);
    var whole := (x1 * m + x0) * (y1 * m + y0);
    WholeBelow(m, w, x0, x1, y0, y1);
    CombineSteps(m, w, z0, z1, z2, z3, whole);
  }

  lemma WholeBelow(m: nat, w: nat, x0: nat, x1: nat, y0: nat, y1: nat)
    requires m > 0 && w == m * m && x0 < m && x1 < m && y0 < m && y1 < m
    ensures 0 <= (x1 * m + x0) * (y1 * m + y0) < w * w
  {
    TwoDigits(x1, x0, m, w);
    TwoDigits(y1, y0, m, w);
    var x: nat, y: nat := x1 * m + x0, y1 * m + y0;
    ProductBelow(x, y, w);
  }

  /** No carry is lost: multiplying by halves gives the exact double-width product. */
  lemma ByHalvesExact(m: nat, w: nat, x: nat, y: nat)
    requires m > 0 && w == m * m && x < w && y < w
    ensures w > 0
    ensures var p := ByHalves(m, w, x, y);
      Whole(p, w) == x * y && p.hi < w && p.lo < w
  {
    ShiftMask(x, m);
    ShiftMask(y, m);
    SmallQuotient(x, m, w);
    SmallQuotient(y, m, w);
    var x0, x1, y0, y1 := Mask(x, m), Shift(x, m), Mask(y, m), Shift(y, m);
    PartialProducts(m, w, x0, x1, y0, y1, x0 * y0, x1 * y0, x0 * y1, x1 * y1);
  }

  /** A word of 2q bits: its modulus is the square of the half-word's. */
  function WordSize(q: nat): (w: nat)
    ensures w > 0
  {
    Pow2(q + q)
  }

  lemma WordIsSquare(q: nat)
    ensures WordSize(q) == Pow2(q) * Pow2(q)
  {
    Pow2Sum(q, q);
  }

  // ----- unsigned -----

  /** alu.h: mulhu. */
  function Mulhu(q: nat, x: nat, y: nat): nat {
    ByHalves(Pow2(q), WordSize(q), x, y).hi
  }

  lemma MulhuExact(q: nat, x: nat, y: nat)
    requires x < WordSize(q) && y < WordSize(q)
    ensures Mulhu(q, x, y) == x * y / WordSize(q)
  {
    WordIsSquare(q);
    var w, p := WordSize(q), ByHalves(Pow2(q), WordSize(q), x, y);
    ByHalvesExact(Pow2(q), w, x, y);
    DivModUnique(x * y, w, p.hi, p.lo);
  }

  // ----- signs -----

  /** `x < 0` as a word. */
  function Sign(x: int): nat {
    if x < 0 then 1 else 0
  }

  /** `(~xs + 1) ^ (x - xs)`: the magnitude of a signed word. */
  function Magnitude(q: nat, x: int): nat {
    var w, xs := WordSize(q), Sign(x);
    Xor(Wrap((w - 1 - xs) + 1, w), Wrap(x - xs, w), q + q)
  }

  lemma MagnitudeIsAbs(q: nat, x: int)
    requires IsSigned(x, WordSize(q))
    ensures Magnitude(q, x) == (if x < 0 then -x else x) < WordSize(q)
  {
    var w := WordSize(q);
    if x < 0 {
      WrapNone(w - 1, w);
      WrapBy(x - 1, w, -1, x - 1 + w);
      XorOnes(x - 1 + w, q + q);
    } else {
      WrapBy(w, w, 1, 0);
      WrapNone(x, w);
      XorZero(x, q + q);
    }
  }

  /** The sign fix-up: with rs set, the two words of p are negated by a borrow and two xors. */
  function FixSign(q: nat, p: Product, rs: nat): Product {
    var w := WordSize(q);
    var l2 := Wrap(p.lo as int - rs, w);
    var hb := if p.lo < l2 then 1 else 0;
    var h2 := Wrap(p.hi as int - hb, w);
    var ones := Wrap(0 - rs as int, w);
    Product(Xor(ones, h2, q + q), Xor(ones, l2, q + q))
  }

  /** The signed value of hi:lo. */
  function SignedWhole(p: Product, w: nat): int {
    Signed(p.hi, w) * w + p.lo
  }

  /** Without a sign nothing changes. */
  lemma FixNone(q: nat, p: Product)
    requires p.hi < WordSize(q) && p.lo < WordSize(q)
    ensures FixSign(q, p, 0) == p
  {
    var w := WordSize(q);
    WrapNone(p.lo, w);
    WrapNone(p.hi, w);
    WrapNone(0, w);
    XorZero(p.lo, q + q);
    XorZero(p.hi, q + q);
  }

  /** With a sign, the words of p are those of its negation. */
  lemma FixNegates(q: nat, p: Product)
    requires p.hi < WordSize(q) && p.lo < WordSize(q)
    ensures var w, n := WordSize(q), FixSign(q, p, 1);
      && n.hi < w && n.lo < w
      && (p.lo == 0 ==> n.lo == 0 && n.hi == if p.hi == 0 then 0 else w - p.hi)
      && (p.lo > 0 ==> n.lo == w - p.lo && n.hi == w - 1 - p.hi)
  {
    if p.lo == 0 {
      FixNegatesZero(q, p);
    } else {
      FixNegatesOther(q, p);
    }
  }

  lemma FixNegatesZero(q: nat, p: Product)
    requires p.hi < WordSize(q) && p.lo == 0
    ensures FixSign(q, p, 1) == Product(if p.hi == 0 then 0 else WordSize(q) - p.hi, 0)
  {
    var w := WordSize(q);
    WrapBy(-1, w, -1, w - 1);
    XorOnes(w - 1, q + q);
    if p.hi > 0 {
      WrapNone(p.hi - 1, w);
      XorOnes(p.hi - 1, q + q);
    }
  }

  lemma FixNegatesOther(q: nat, p: Product)
    requires p.hi < WordSize(q) && 0 < p.lo < WordSize(q)
    ensures FixSign(q, p, 1) == Product(WordSize(q) - 1 - p.hi, WordSize(q) - p.lo)
  {
    var w := WordSize(q);
    WrapBy(-1, w, -1, w - 1);
    WrapNone(p.lo - 1, w);
    WrapNone(p.hi, w);
    XorOnes(p.lo - 1, q + q);
    XorOnes(p.hi, q + q);
  }

  /** The product of the magnitudes, given the product of the signs, is a signed double word. */
  lemma FixSignExact(q: nat, p: Product, rs: nat, whole: int)
    requires rs <= 1 && p.hi < WordSize(q) && p.lo < WordSize(q)
    requires Whole(p, WordSize(q)) == if rs == 1 then -whole else whole
    requires InSignedRange(whole, WordSize(q))
    ensures var w, n := WordSize(q), FixSign(q, p, rs);
      n.hi < w && n.lo < w && SignedWhole(n, w) == whole
  {
    var w := WordSize(q);
    if rs == 0 {
      FixNone(q, p);
      HighNotNegative(p, w, whole);
    } else {
      FixNegates(q, p);
      WordIsEven(q);
      NegatedHigh(p, FixSign(q, p, 1), w, if q > 0 then Pow2(q + q - 1) else 0, whole);
    }
  }

  /** -w * w <= 2 * whole < w * w. */
  predicate InSignedRange(whole: int, w: nat) {
    0 <= whole + whole + w * w && whole + whole < w * w
  }

  lemma HighNotNegative(p: Product, w: nat, whole: int)
    requires p.hi < w && p.lo < w && Whole(p, w) == whole && InSignedRange(whole, w)
    ensures p.hi + p.hi < w
  {
    assert (p.hi + p.hi) * w == p.hi * w + p.hi * w;
    if p.hi + p.hi >= w {
      MulMono(w, p.hi + p.hi, w);
    }
  }

  lemma NegatedHigh(p: Product, n: Product, w: nat, half: nat, whole: int)
    requires w == half + half || w == 1
    requires p.hi < w && p.lo < w && Whole(p, w) == -whole && InSignedRange(whole, w)
    requires p.lo == 0 ==> n.lo == 0 && n.hi == if p.hi == 0 then 0 else w - p.hi
    requires p.lo > 0 ==> n.lo == w - p.lo && n.hi == w - 1 - p.hi
    ensures SignedWhole(n, w) == whole
  {
    HighBound(p.hi, p.lo, w);
    NegatedSign(p, n, w, half);
    NegatedValue(Signed(n.hi, w), p.hi, p.lo, n.lo, w);
  }

  lemma NegatedSign(p: Product, n: Product, w: nat, half: nat)
    requires w == half + half || w == 1
    requires p.hi < w && p.lo < w && p.hi + p.hi <= w && (p.lo > 0 ==> p.hi + p.hi < w)
    requires p.lo == 0 ==> n.hi == if p.hi == 0 then 0 else w - p.hi
    requires p.lo > 0 ==> n.hi == w - 1 - p.hi
    ensures Signed(n.hi, w) == if p.lo == 0 then 0 - p.hi as int else -1 - p.hi as int
  {
  }

  lemma NegatedValue(s: int, hi: nat, lo: nat, nlo: nat, w: nat)
    requires lo == 0 ==> s == 0 - hi as int && nlo == 0
    requires lo > 0 ==> s == -1 - hi as int && nlo == w - lo
    ensures s * w + nlo == 0 - (hi * w + lo)
  {
    if lo == 0 {
      MulDist(0, hi, w);
    } else {
      MulDist(-1, hi, w);
    }
  }

  lemma HighBound(hi: nat, lo: nat, w: nat)
    requires lo < w && (hi * w + lo) + (hi * w + lo) <= w * w
    ensures hi + hi <= w && (lo > 0 ==> hi + hi < w)
  {
    assert (hi + hi) * w == hi * w + hi * w && (w + 1) * w == w * w + w;
    if hi + hi > w {
      MulMono(w + 1, hi + hi, w);
    }
  }

  lemma WordIsEven(q: nat)
    ensures if q == 0 then WordSize(q) == 1 else WordSize(q) == Pow2(q + q - 1) + Pow2(q + q - 1)
  {
    if q > 0 {
      assert Pow2(q + q) == 2 * Pow2(q + q - 1);
    }
  }

  // ----- signed products -----

  /** mul: both words of the signed product; mulh returns the high one. */
  function Mul(q: nat, x: int, y: int): Product {
    var p := ByHalves(Pow2(q), WordSize(q), Magnitude(q, x), Magnitude(q, y));
    FixSign(q, p, Xor(Sign(x), Sign(y), q + q))
  }

  /** mulsu: signed times unsigned; mulhsu returns the high word. */
  function Mulsu(q: nat, x: int, y: nat): Product {
    FixSign(q, ByHalves(Pow2(q), WordSize(q), Magnitude(q, x), y), Sign(x))
  }

  function Abs(x: int): nat {
    if x < 0 then -x else x
  }

  lemma AbsProduct(x: int, y: int)
    ensures Abs(x) * Abs(y) == if Sign(x) != Sign(y) then -(x * y) else x * y
  {
    MulNeg(x, y);
    MulNeg(y, x);
    MulNeg(x, -y);
  }

  lemma XorSigns(x: int, y: int, n: nat)
    requires n > 0
    ensures Xor(Sign(x), Sign(y), n) == if Sign(x) != Sign(y) then 1 else 0
  {
    XorZero(0, n - 1);
  }

  /** Half a word times a word is at most half a double word. */
  lemma SignedFits(a: nat, b: nat, whole: int, w: nat)
    requires a + a <= w && b < w && (a * b == whole || a * b == -whole)
    ensures InSignedRange(whole, w)
  {
    assert (a + a) * b == a * b + a * b;
    MulMono(a + a, w, b);
    assert w * b == b * w;
    MulMono(b, w - 1, w);
    assert (w - 1) * w == w * w - w;
  }

  /** Fixing the sign of the product of magnitudes gives the signed product. */
  lemma SignedProduct(q: nat, p: Product, x: int, y: int, rs: nat)
    requires Whole(p, WordSize(q)) == Abs(x) * Abs(y) && p.hi < WordSize(q) && p.lo < WordSize(q)
    requires Abs(x) + Abs(x) <= WordSize(q) && Abs(y) < WordSize(q)
    requires rs == if Sign(x) != Sign(y) then 1 else 0
    ensures var w, n := WordSize(q), FixSign(q, p, rs);
      n.hi < w && n.lo < w && SignedWhole(n, w) == x * y
  {
    AbsProduct(x, y);
    var whole := x * y;
    SignedFits(Abs(x), Abs(y), whole, WordSize(q));
    FixSignExact(q, p, rs, whole);
  }

  lemma MulExact(q: nat, x: int, y: int)
    requires q > 0 && IsSigned(x, WordSize(q)) && IsSigned(y, WordSize(q))
    ensures SignedWhole(Mul(q, x, y), WordSize(q)) == x * y
    ensures Mul(q, x, y).hi < WordSize(q) && Mul(q, x, y).lo < WordSize(q)
  {
    WordIsSquare(q);
    MagnitudeIsAbs(q, x);
    MagnitudeIsAbs(q, y);
    ByHalvesExact(Pow2(q), WordSize(q), Abs(x), Abs(y));
    XorSigns(x, y, q + q);
    SignedProduct(q, ByHalves(Pow2(q), WordSize(q), Abs(x), Abs(y)), x, y, Xor(Sign(x), Sign(y), q + q));
  }

  lemma MulsuExact(q: nat, x: int, y: nat)
    requires q > 0 && IsSigned(x, WordSize(q)) && y < WordSize(q)
    ensures SignedWhole(Mulsu(q, x, y), WordSize(q)) == x * y
    ensures Mulsu(q, x, y).hi < WordSize(q) && Mulsu(q, x, y).lo < WordSize(q)
  {
    WordIsSquare(q);
    MagnitudeIsAbs(q, x);
    ByHalvesExact(Pow2(q), WordSize(q), Abs(x), y);
    SignedProduct(q, ByHalves(Pow2(q), WordSize(q), Abs(x), y), x, y, Sign(x));
  }

  /** alu.h: mulh, as the signed word it returns. */
  function Mulh(q: nat, x: int, y: int): int {
    Signed(Mul(q, x, y).hi, WordSize(q))
  }

  /** alu.h: mulhsu. */
  function Mulhsu(q: nat, x: int, y: nat): int {
    Signed(Mulsu(q, x, y).hi, WordSize(q))
  }

  /** mulh is the upper word of the exact signed product, rounded down. */
  lemma MulhExact(q: nat, x: int, y: int)
    requires q > 0 && IsSigned(x, WordSize(q)) && IsSigned(y, WordSize(q))
    ensures Mulh(q, x, y) == x * y / WordSize(q)
  {
    MulExact(q, x, y);
    DivModUnique(x * y, WordSize(q), Mulh(q, x, y), Mul(q, x, y).lo);
  }

  lemma MulhsuExact(q: nat, x: int, y: nat)
    requires q > 0 && IsSigned(x, WordSize(q)) && y < WordSize(q)
    ensures Mulhsu(q, x, y) == x * y / WordSize(q)
  {
    MulsuExact(q, x, y);
    DivModUnique(x * y, WordSize(q), Mulhsu(q, x, y), Mulsu(q, x, y).lo);
  }

  // ----- shift and add -----

  /** The state of the loop in mulu<_u16> and mulu<_u32>: what is added, and the product still to add. */
  ghost predicate Adding(r: nat, xx: nat, y: nat, j: nat, n: nat, x0: nat, y0: nat) {
    && j <= n
    && r + xx * y == x0 * y0
    && xx == x0 * Pow2(j)
    && y < Pow2(n - j)
  }

  /** One of the two lines of the loop body, on a result of 2n bits. */
  method AddShift(r: nat, xx: nat, y: nat, n: nat, ghost j: nat, ghost x0: nat, ghost y0: nat)
    returns (r': nat, xx': nat, y': nat)
    requires j < n && x0 < Pow2(n) && y0 < Pow2(n) && Adding(r, xx, y, j, n, x0, y0)
    ensures Adding(r', xx', y', j + 1, n, x0, y0)
  {
    var ones := Pow2(n + n) - 1;
    StepFits(r, xx, y, j, n, x0, y0);
    AndZero(xx, n + n);
    AndOnes(xx, n + n);
    var select := if y % 2 == 1 then ones else 0;  // ~((y & 1) - 1)
    r' := Mask(r + And(xx, select, n + n), Pow2(n + n));
    xx' := Mask(xx + xx, Pow2(n + n));
    y' := y / 2;
    StepAdds(r, xx, y, j, n, x0, y0);
  }

  lemma HalveFactor(xx: nat, y: nat)
    ensures xx * y == (xx + xx) * (y / 2) + (if y % 2 == 1 then xx else 0)
    ensures 0 <= (xx + xx) * (y / 2)
  {
    var h := y / 2;
    if y % 2 == 1 {
      assert y == h + h + 1;
      assert xx * (h + h + 1) == (xx + xx) * h + xx;
    } else {
      assert y == h + h;
      assert xx * (h + h) == (xx + xx) * h;
    }
  }

  /** Doubling the factor and halving the rest keeps the state. */
  lemma StepAdds(r: nat, xx: nat, y: nat, j: nat, n: nat, x0: nat, y0: nat)
    requires j < n && Adding(r, xx, y, j, n, x0, y0)
    ensures Adding(r + (if y % 2 == 1 then xx else 0), xx + xx, y / 2, j + 1, n, x0, y0)
  {
    HalveFactor(xx, y);
    assert Pow2(n - j) == Pow2(n - j - 1) + Pow2(n - j - 1);
    MulDouble(x0, Pow2(j));
  }

  lemma MulDouble(a: int, b: int)
    ensures a * (2 * b) == a * b + a * b
  {
  }

  /** Neither the sum nor the shifted factor leaves 2n bits. */
  lemma StepFits(r: nat, xx: nat, y: nat, j: nat, n: nat, x0: nat, y0: nat)
    requires j < n && x0 < Pow2(n) && y0 < Pow2(n) && Adding(r, xx, y, j, n, x0, y0)
    ensures xx + xx < Pow2(n + n)
    ensures r + (if y % 2 == 1 then xx else 0) < Pow2(n + n)
  {
    HalveFactor(xx, y);
    SquareBelow(x0, y0, n);
    ShiftFits(x0, j, n);
    MulDouble(x0, Pow2(j));
  }

  lemma SquareBelow(x0: nat, y0: nat, n: nat)
    requires x0 < Pow2(n) && y0 < Pow2(n)
    ensures x0 * y0 < Pow2(n + n)
  {
    Pow2Sum(n, n);
    ProductBelow(x0, y0, Pow2(n));
  }

  lemma ShiftFits(x0: nat, j: nat, n: nat)
    requires j < n && x0 < Pow2(n)
    ensures x0 * Pow2(j + 1) < Pow2(n + n)
  {
    Pow2Sum(n, j + 1);
    MulMono(x0, Pow2(n) - 1, Pow2(j + 1));
    assert (Pow2(n) - 1) * Pow2(j + 1) == Pow2(n) * Pow2(j + 1) - Pow2(j + 1);
    Pow2Monotone(n + (j + 1), n + n);
  }

  /** mulu<_u16> (n = 8) and mulu<_u32> (n = 16): two bits a round. */
  method ShiftAdd(n: nat, x: nat, y: nat) returns (p: Product)
    requires n % 2 == 0 && x < Pow2(n) && y < Pow2(n)
    ensures Whole(p, Pow2(n)) == x * y && p.hi < Pow2(n) && p.lo < Pow2(n)
  {
    var r, xx, rest := 0, x, y;
    for i := 0 to n / 2
      invariant Adding(r, xx, rest, i + i, n, x, y)
    {
      r, xx, rest := AddShift(r, xx, rest, n, i + i, x, y);
      r, xx, rest := AddShift(r, xx, rest, n, i + i + 1, x, y);
    }
    assert Pow2(0) == 1 && xx * 0 == 0;
    p := Product(Shift(r, Pow2(n)), Mask(r, Pow2(n)));
    ShiftMask(r, Pow2(n));
    ProductBelow(x, y, Pow2(n));
    HighFits(p.hi, p.lo, Pow2(n), r);
  }

  // ----- the width recursion -----

  /** Word widths with a mulu: 8 and 16 bits by shift and add, then doubling. */
  predicate Width(n: nat) {
    n == 8 || n == 16 || (n > 16 && n % 2 == 0 && Width(n / 2))
  }

  /** mulu<R>: the exact double-width product at every level of the recursion. */
  method Mulu(n: nat, x: nat, y: nat) returns (p: Product)
    requires Width(n) && x < Pow2(n) && y < Pow2(n)
    ensures Whole(p, Pow2(n)) == x * y && p.hi < Pow2(n) && p.lo < Pow2(n)
    decreases n, 0
  {
    if n <= 16 {
      p := ShiftAdd(n, x, y);
      return;
    }
    p := MuluByHalves(n / 2, n / 2, x, y);
  }

  /** The generic template: four products of half-words, by the multiplication of width k, then combined. */
  method MuluByHalves(q: nat, k: nat, x: nat, y: nat) returns (p: Product)
    requires Width(k) && q <= k && x < WordSize(q) && y < WordSize(q)
    ensures p == ByHalves(Pow2(q), WordSize(q), x, y)
    ensures Whole(p, WordSize(q)) == x * y && p.hi < WordSize(q) && p.lo < WordSize(q)
    decreases k, 2
  {
    var m := Pow2(q);
    WordIsSquare(q);
    SmallQuotient(x, m, WordSize(q));
    SmallQuotient(y, m, WordSize(q));
    ShiftMask(x, m);
    ShiftMask(y, m);
    Pow2Monotone(q, k);
    var z0 := HalfProduct(k, Mask(x, m), Mask(y, m));
    var z1 := HalfProduct(k, Shift(x, m), Mask(y, m));
    var z2 := HalfProduct(k, Mask(x, m), Shift(y, m));
    var z3 := HalfProduct(k, Shift(x, m), Shift(y, m));
    p := Combine(m, WordSize(q), z0, z1, z2, z3);
    ByHalvesExact(m, WordSize(q), x, y);
  }

  /** A product as the integer it converts to. */
  method HalfProduct(k: nat, a: nat, b: nat) returns (z: nat)
    requires Width(k) && a < Pow2(k) && b < Pow2(k)
    ensures z == a * b
    decreases k, 1
  {
    var p := Mulu(k, a, b);
    z := Whole(p, Pow2(k));
  }

  /** The width whose mulu multiplies the halves of an n-bit word; 8-bit words use the 8-bit one. */
  function HalfWidth(n: nat): nat {
    if n == 8 then 8 else n / 2
  }

  /** mul<R>, for n-bit words. */
  method MulWords(n: nat, x: int, y: int) returns (p: Product)
    requires Width(n) && IsSigned(x, Pow2(n)) && IsSigned(y, Pow2(n))
    ensures SignedWhole(p, Pow2(n)) == x * y && p.hi < Pow2(n) && p.lo < Pow2(n)
  {
    var q := n / 2;
    assert q + q == n;
    MagnitudeIsAbs(q, x);
    MagnitudeIsAbs(q, y);
    var u := MuluByHalves(q, HalfWidth(n), Magnitude(q, x), Magnitude(q, y));
    p := FixSign(q, u, Xor(Sign(x), Sign(y), n));
    MulExact(q, x, y);
  }

  /** mulsu<R>, for n-bit words. */
  method MulsuWords(n: nat, x: int, y: nat) returns (p: Product)
    requires Width(n) && IsSigned(x, Pow2(n)) && y < Pow2(n)
    ensures SignedWhole(p, Pow2(n)) == x * y && p.hi < Pow2(n) && p.lo < Pow2(n)
  {
    var q := n / 2;
    assert q + q == n;
    MagnitudeIsAbs(q, x);
    var u := MuluByHalves(q, HalfWidth(n), Magnitude(q, x), y);
    p := FixSign(q, u, Sign(x));
    MulsuExact(q, x, y);
  }
}

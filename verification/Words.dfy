// Machine words of n bits as integers, with the bit operations alu.h uses.
module Words {
  import opened Powers

  lemma {:induction false} Pow2Sum(m: nat, n: nat)
    ensures Pow2(m + n) == Pow2(m) * Pow2(n)
  {
    if m > 0 {
      Pow2Sum(m - 1, n);
      MulAssoc(2, Pow2(m - 1), Pow2(n));
    }
  }

  lemma MulAssoc(a: int, b: int, c: int)
    ensures (a * b) * c == a * (b * c)
  {
  }

  /** `a ^ b` on n-bit words. */
  function Xor(a: nat, b: nat, n: nat): nat {
    if n == 0 then 0 else 2 * Xor(a / 2, b / 2, n - 1) + if a % 2 != b % 2 then 1 else 0
  }

  /** `a & b` on n-bit words. */
  function And(a: nat, b: nat, n: nat): nat {
    if n == 0 then 0 else 2 * And(a / 2, b / 2, n - 1) + if a % 2 == 1 && b % 2 == 1 then 1 else 0
  }

  lemma {:induction false} XorZero(b: nat, n: nat)
    requires b < Pow2(n)
    ensures Xor(0, b, n) == b
  {
    if n > 0 {
      XorZero(b / 2, n - 1);
    }
  }

  /** Xor with all ones is the complement. */
  lemma {:induction false} XorOnes(b: nat, n: nat)
    requires b < Pow2(n)
    ensures Xor(Pow2(n) - 1, b, n) == Pow2(n) - 1 - b
  {
    if n > 0 {
      assert (Pow2(n) - 1) / 2 == Pow2(n - 1) - 1;
      XorOnes(b / 2, n - 1);
    }
  }

  lemma {:induction false} AndZero(a: nat, n: nat)
    ensures And(a, 0, n) == 0
  {
    if n > 0 {
      AndZero(a / 2, n - 1);
    }
  }

  lemma {:induction false} AndOnes(a: nat, n: nat)
    requires a < Pow2(n)
    ensures And(a, Pow2(n) - 1, n) == a
  {
    if n > 0 {
      assert (Pow2(n) - 1) / 2 == Pow2(n - 1) - 1;
      AndOnes(a / 2, n - 1);
    }
  }

  /** The word of any integer, for words of modulus w. */
  function Wrap(v: int, w: nat): nat
    requires w > 0
  {
    v % w
  }

  // Shift and Mask are v / m and v % m by repeated subtraction, so that no proof
  // about products meets a division.

  /** `v >> q`, for m = 2^q. */
  function Shift(v: nat, m: nat): nat
    requires m > 0
  {
    if v < m then 0 else Shift(v - m, m) + 1
  }

  /** `v & (2^q - 1)`, for m = 2^q. */
  function Mask(v: nat, m: nat): nat
    requires m > 0
  {
    if v < m then v else Mask(v - m, m)
  }

  lemma {:induction false} ShiftMask(v: nat, m: nat)
    requires m > 0
    ensures v == Shift(v, m) * m + Mask(v, m) && Mask(v, m) < m
  {
    if v >= m {
      ShiftMask(v - m, m);
      assert (Shift(v - m, m) + 1) * m == Shift(v - m, m) * m + m;
    }
  }

  lemma ShiftMaskAre(v: nat, m: nat)
    requires m > 0
    ensures Shift(v, m) == v / m && Mask(v, m) == v % m
  {
    ShiftMask(v, m);
    DivModUnique(v, m, Shift(v, m), Mask(v, m));
  }

  lemma MaskBy(v: nat, m: nat, q: nat, r: nat)
    requires m > 0 && r < m && v == q * m + r
    ensures Shift(v, m) == q && Mask(v, m) == r
  {
    ShiftMaskAre(v, m);
    DivModUnique(v, m, q, r);
  }

  /** The signed value of a word of modulus w. */
  function Signed(u: nat, w: nat): int {
    if u + u < w then u else u - w
  }

  predicate IsSigned(v: int, w: nat) {
    0 <= v + v + w && v + v < w
  }

  lemma WrapBy(v: int, w: nat, k: int, r: int)
    requires 0 <= r < w && v == k * w + r
    ensures Wrap(v, w) == r
  {
    DivModUnique(v, w, k, r);
  }

  lemma WrapNone(v: int, w: nat)
    requires 0 <= v < w
    ensures Wrap(v, w) == v
  {
    WrapBy(v, w, 0, v);
  }

  lemma DivModUnique(v: int, m: nat, q: int, r: int)
    requires m > 0 && 0 <= r < m && v == q * m + r
    ensures v / m == q && v % m == r
  {
    var d := v / m - q;
    DivMod(v, m);
    MulDist(v / m, q, m);
    if d > 0 {
      MulAtLeast(d, m);
    } else if d < 0 {
      MulAtLeast(-d, m);
      MulNeg(d, m);
    }
  }

  lemma DivMod(v: int, m: nat)
    requires m > 0
    ensures v == (v / m) * m + v % m && 0 <= v % m < m
  {
  }

  lemma MulDist(a: int, b: int, m: int)
    ensures (a - b) * m == a * m - b * m
  {
  }

  lemma MulNeg(d: int, m: int)
    ensures (-d) * m == -(d * m)
  {
  }

  lemma MulAtLeast(d: int, m: int)
    requires d > 0 && m > 0
    ensures d * m >= m
  {
  }

  lemma MulMono(a: int, b: int, c: int)
    requires a <= b && 0 <= c
    ensures a * c <= b * c
  {
  }
}

// The immediates of PC-relative relocations: how the 64-bit offset is split, what is lost
// when a value is truncated to int and to the field of an instruction, and when the
// instructions still reach their target.
module PcRelative {

  const WORD32: nat := 0x1_0000_0000
  const WORD64: nat := 0x1_0000_0000_0000_0000

  /** The value of a size_t expression. */
  function Wrap64(v: int): nat {
    v % WORD64
  }

  /** The value of an int initialised with v. */
  function ToInt(v: int): int {
    var u := v % WORD32;
    if u < 0x8000_0000 then u else u - WORD32
  }

  /** The distance from p to t, as a signed 64-bit number. */
  function Distance(t: nat, p: nat): int {
    var u := Wrap64(t - p);
    if u < 0x8000_0000_0000_0000 then u else u - WORD64
  }

  /** `((t - p + 0x800) >> 12) << 12`, kept in an int. */
  function Upper(t: nat, p: nat): int {
    ToInt(Wrap64(t - p + 0x800) / 0x1000 * 0x1000)
  }

  /** `t - p - upper`, kept in an int. */
  function Lower(t: nat, p: nat): int {
    ToInt(Wrap64(t - p - Upper(t, p)))
  }

  // What the machine reads back from the immediate field of an instruction.

  function FieldI(imm: int): int {
    (imm + 0x800) % 0x1000 - 0x800
  }

  function FieldU(imm: int): int {
    imm - imm % 0x1000
  }

  function FieldJ(imm: int): int {
    (imm - imm % 2 + 0x10_0000) % 0x20_0000 - 0x10_0000
  }

  function FieldB(imm: int): int {
    (imm - imm % 2 + 0x1000) % 0x2000 - 0x1000
  }

  lemma ToIntOf(v: int, k: int, r: int)
    requires v == WORD32 * k + r && -0x8000_0000 <= r < 0x8000_0000
    ensures ToInt(v) == r
  {
    if 0 <= r {
      assert v % WORD32 == r;
    } else {
      assert v == WORD32 * (k - 1) + (r + WORD32);
      assert v % WORD32 == r + WORD32;
    }
  }

  lemma ToIntSplits(v: int) returns (k: int)
    ensures v == WORD32 * k + ToInt(v) && -0x8000_0000 <= ToInt(v) < 0x8000_0000
  {
    k := if v % WORD32 < 0x8000_0000 then v / WORD32 else v / WORD32 + 1;
  }

  lemma Wrap64Of(v: int, k: int, r: int)
    requires v == WORD64 * k + r && 0 <= r < WORD64
    ensures Wrap64(v) == r
  {
  }

  lemma Wrap64Splits(v: int) returns (k: int)
    ensures v == WORD64 * k + Wrap64(v)
  {
    k := v / WORD64;
  }

  /**
   * The upper half is the distance rounded to a multiple of 4096, cut to 32 bits; the lower half is what the
   * rounding left.
   */
  lemma HalvesAre(t: nat, p: nat) returns (y: nat, k: int, j: int)
    ensures y < WORD64 && t - p + 0x800 == WORD64 * k + y
    ensures y - y % 0x1000 == WORD32 * j + Upper(t, p)
    ensures Lower(t, p) == y % 0x1000 - 0x800
    ensures -0x8000_0000 <= Upper(t, p) < 0x8000_0000
  {
    k := Wrap64Splits(t - p + 0x800);
    y := Wrap64(t - p + 0x800);
    assert y / 0x1000 * 0x1000 == y - y % 0x1000;
    j := ToIntSplits(y - y % 0x1000);
    var i := Wrap64Splits(t - p - Upper(t, p));
    var r := y % 0x1000 - 0x800;
    assert t - p - Upper(t, p) == WORD64 * k + WORD32 * j + r;
    ToIntOf(Wrap64(t - p - Upper(t, p)), 0x1_0000_0000 * (k - i) + j, r);
  }

  /** Whatever the distance, both halves fit their instruction fields. */
  lemma HalvesFit(t: nat, p: nat)
    ensures -2048 <= Lower(t, p) <= 2047
    ensures FieldI(Lower(t, p)) == Lower(t, p)
    ensures FieldU(Upper(t, p)) == Upper(t, p)
    ensures -0x8000_0000 <= Upper(t, p) < 0x8000_0000
  {
    var y, k, j := HalvesAre(t, p);
    var q := y / 0x1000;
    assert Upper(t, p) == 0x1000 * (q - 0x10_0000 * j);
    MultipleMod(q - 0x10_0000 * j);
  }

  lemma MultipleMod(q: int)
    ensures (0x1000 * q) % 0x1000 == 0
  {
  }

  /** The reach of an upper and a lower half together. */
  predicate NearEnough(t: nat, p: nat) {
    -0x8000_0000 - 0x800 <= Distance(t, p) < 0x8000_0000 - 0x800
  }

  lemma LowerFits(t: nat, p: nat)
    ensures -2048 <= Lower(t, p) <= 2047
  {
    HalvesFit(t, p);
  }

  /**
   * An auipc at p with the upper half, and an instruction that adds the lower half, reach the target t
   * exactly when the distance is in [-2^31 - 0x800, 2^31 - 0x800).
   */
  lemma HalvesReach(t: nat, p: nat)
    requires t < WORD64 && p < WORD64
    ensures Wrap64(p + Upper(t, p) + Lower(t, p)) == t <==> NearEnough(t, p)
  {
    var y, k, j := HalvesAre(t, p);
    var r := y - y % 0x1000;
    assert p + Upper(t, p) + Lower(t, p) == t - WORD64 * k - WORD32 * j;
    DistanceByRounding(t, p, y, k);
    if j == 0 {
      Wrap64Of(t - WORD64 * k, -k, t);
    } else if j == WORD32 {
      Wrap64Of(t - WORD64 * k - WORD64, -k - 1, t);
    } else {
      JBounds(y, j, Upper(t, p));
      NotWhole(t, k, j);
    }
    RoundIsNear(y, j, Upper(t, p));
  }

  lemma DistanceByRounding(t: nat, p: nat, y: nat, k: int)
    requires t < WORD64 && p < WORD64 && y < WORD64 && t - p + 0x800 == WORD64 * k + y
    ensures -0x8000_0000 - 0x800 <= Distance(t, p) < 0x8000_0000 - 0x800 <==>
      (y < 0x8000_0000 || y >= WORD64 - 0x8000_0000)
  {
    if y >= 0x800 {
      Wrap64Of(t - p, k, y - 0x800);
    } else {
      Wrap64Of(t - p, k - 1, y - 0x800 + WORD64);
    }
  }

  lemma JBounds(y: nat, j: int, u: int)
    requires y < WORD64 && y - y % 0x1000 == WORD32 * j + u && -0x8000_0000 <= u < 0x8000_0000
    ensures 0 <= j <= WORD32
  {
  }

  lemma NotWhole(t: nat, k: int, j: int)
    requires t < WORD64 && 0 < j < WORD32
    ensures Wrap64(t - WORD64 * k - WORD32 * j) != t
  {
    var v := t - WORD32 * j;
    var i := Wrap64Splits(v - WORD64 * k);
  }

  lemma RoundIsNear(y: nat, j: int, u: int)
    requires y < WORD64 && y - y % 0x1000 == WORD32 * j + u && -0x8000_0000 <= u < 0x8000_0000
    ensures (j == 0 || j == WORD32) <==> (y < 0x8000_0000 || y >= WORD64 - 0x8000_0000)
  {
  }

  /** A jump reaches its target exactly when the distance is even and within 1 MiB. */
  lemma JumpReaches(t: nat, p: nat)
    requires t < WORD64 && p < WORD64
    ensures Wrap64(p + FieldJ(ToInt(Wrap64(t - p)))) == t
       <==> Distance(t, p) % 2 == 0 && -0x10_0000 <= Distance(t, p) < 0x10_0000
  {
    var d, v := Distance(t, p), ToInt(Wrap64(t - p));
    IntOfDistance(t, p);
    FieldReaches(t, p, FieldJ(v));
    if FieldJ(v) == d {
      assert d % 2 == 0;
    }
  }

  /** A branch reaches its target exactly when the distance is even and within 4 KiB. */
  lemma BranchReaches(t: nat, p: nat)
    requires t < WORD64 && p < WORD64
    ensures Wrap64(p + FieldB(ToInt(Wrap64(t - p)))) == t
       <==> Distance(t, p) % 2 == 0 && -0x1000 <= Distance(t, p) < 0x1000
  {
    var d, v := Distance(t, p), ToInt(Wrap64(t - p));
    IntOfDistance(t, p);
    FieldReaches(t, p, FieldB(v));
    if FieldB(v) == d {
      assert d % 2 == 0;
    }
  }

  lemma IntOfDistance(t: nat, p: nat)
    ensures -0x8000_0000 <= Distance(t, p) < 0x8000_0000 ==> ToInt(Wrap64(t - p)) == Distance(t, p)
  {
    var d := Distance(t, p);
    if 0 <= d < 0x8000_0000 {
      ToIntOf(d, 0, d);
    } else if -0x8000_0000 <= d < 0 {
      ToIntOf(d + WORD64, WORD32, d);
    }
  }

  /** A field of at most 32 bits reaches the target exactly when it holds the distance. */
  lemma FieldReaches(t: nat, p: nat, f: int)
    requires t < WORD64 && p < WORD64 && -0x8000_0000 <= f < 0x8000_0000
    ensures Wrap64(p + f) == t <==> f == Distance(t, p)
  {
    var k := Wrap64Splits(t - p);
    var j := Wrap64Splits(p + f);
  }
}

// Bit masks as sets of columns.
module ColumnBits {
  import opened Laplace
  import opened Powers

  /** x | 1 << k. */
  function SetBit(x: nat, k: nat): nat {
    if Bit(x, k) then x else x + Pow2(k)
  }

  /** x ^ 1 << k. */
  function FlipBit(x: nat, k: nat): (r: nat) {
    if Bit(x, k) then BitBelow(x, k); x - Pow2(k) else x + Pow2(k)
  }

  lemma {:induction false} BitBelow(x: nat, k: nat)
    requires Bit(x, k)
    ensures x >= Pow2(k)
  {
    if k > 0 {
      BitBelow(x / 2, k - 1);
    }
  }

  lemma {:induction false} BitUp(x: nat, k: nat, l: nat)
    requires !Bit(x, k)
    ensures Bit(x + Pow2(k), l) <==> (l == k || Bit(x, l))
  {
    if k == 0 {
      assert (x + 1) / 2 == x / 2;
    } else {
      assert (x + Pow2(k)) / 2 == x / 2 + Pow2(k - 1);
      if l > 0 {
        BitUp(x / 2, k - 1, l - 1);
      }
    }
  }

  lemma {:induction false} BitDown(x: nat, k: nat, l: nat)
    requires Bit(x, k)
    ensures x >= Pow2(k)
    ensures Bit(x - Pow2(k), l) <==> (l != k && Bit(x, l))
  {
    BitBelow(x, k);
    if k == 0 {
      assert (x - 1) / 2 == x / 2;
    } else {
      assert (x - Pow2(k)) / 2 == x / 2 - Pow2(k - 1);
      if l > 0 {
        BitDown(x / 2, k - 1, l - 1);
      }
    }
  }

  lemma {:induction false} SameBits(x: nat, y: nat, m: nat)
    requires x < Pow2(m) && y < Pow2(m)
    requires forall k: nat :: k < m ==> (Bit(x, k) <==> Bit(y, k))
    ensures x == y
  {
    if m > 0 {
      assert Bit(x, 0) <==> Bit(y, 0);
      forall k: nat | k < m - 1 ensures Bit(x / 2, k) <==> Bit(y / 2, k) {
        assert Bit(x, k + 1) <==> Bit(y, k + 1);
      }
      SameBits(x / 2, y / 2, m - 1);
    }
  }

  lemma {:induction false} NoHighBits(x: nat, m: nat, k: nat)
    requires x < Pow2(m) && m <= k
    ensures !Bit(x, k)
  {
    if m == 0 {
      ZeroHasNone(k);
    } else {
      NoHighBits(x / 2, m - 1, k - 1);
    }
  }

  lemma {:induction false} ZeroHasNone(k: nat)
    ensures !Bit(0, k)
  {
    if k > 0 {
      ZeroHasNone(k - 1);
    }
  }

  /** The columns below m whose bits are set in x. */
  function Columns(x: nat, m: nat): (c: set<nat>)
    ensures forall k: nat :: k in c <==> k < m && Bit(x, k)
  {
    if m == 0 then {} else Columns(x, m - 1) + if Bit(x, m - 1) then {m - 1} else {}
  }

  /** How many bits below m are set in x. */
  function Ones(x: nat, m: nat): nat {
    if m == 0 then 0 else Ones(x, m - 1) + if Bit(x, m - 1) then 1 else 0
  }

  lemma {:induction false} BelowColumns(x: nat, m: nat, k: nat)
    requires k <= m
    ensures Below(Columns(x, m), k) == Ones(x, k)
  {
    if k > 0 {
      BelowColumns(x, m, k - 1);
    }
  }

  /** x and y have the same bits below i. */
  ghost predicate Agree(x: nat, y: nat, i: nat) {
    forall k: nat :: k < i ==> (Bit(x, k) <==> Bit(y, k))
  }

  lemma {:induction false} AgreeOnes(x: nat, y: nat, i: nat)
    requires Agree(x, y, i)
    ensures Ones(x, i) == Ones(y, i)
  {
    if i > 0 {
      assert Bit(x, i - 1) <==> Bit(y, i - 1);
      AgreeOnes(x, y, i - 1);
    }
  }

  lemma {:induction false} OnesGrow(x: nat, i: nat, m: nat)
    requires i <= m
    ensures Ones(x, i) <= Ones(x, m) <= Ones(x, i) + (m - i)
  {
    if i < m {
      OnesGrow(x, i, m - 1);
    }
  }

  /** A mask with all its bits counted below i has none from i on. */
  lemma {:induction false} NoneBeyond(x: nat, i: nat, m: nat, k: nat)
    requires i <= k < m && Ones(x, i) == Ones(x, m)
    ensures !Bit(x, k)
  {
    OnesGrow(x, i, k);
    OnesGrow(x, k + 1, m);
  }

  lemma {:induction false} AllOnes(m: nat, k: nat)
    requires k < m
    ensures Bit(Pow2(m) - 1, k)
  {
    if k > 0 {
      assert (Pow2(m) - 1) / 2 == Pow2(m - 1) - 1;
      AllOnes(m - 1, k - 1);
    }
  }

  /** Taking a set bit out of a mask takes its column out of the set. */
  lemma FlipColumns(x: nat, k: nat, m: nat)
    requires k < m && Bit(x, k)
    ensures Columns(FlipBit(x, k), m) == Columns(x, m) - {k}
    ensures FlipBit(x, k) < x
    ensures Ones(FlipBit(x, k), m) == Ones(x, m) - 1
  {
    var y := FlipBit(x, k);
    forall l: nat | l < m ensures l in Columns(y, m) <==> l in Columns(x, m) - {k} {
      BitDown(x, k, l);
    }
    assert Columns(y, m) == Columns(x, m) - {k};
    BelowColumns(x, m, m);
    BelowColumns(y, m, m);
    BelowWithout(Columns(x, m), k, m);
  }
}

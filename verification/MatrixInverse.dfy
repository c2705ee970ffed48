// Determinants by dynamic programming over column sets, the adjoint and the inverse of a
// matrix, over exact reals and for any matrix size.
module MatrixInverses {
  import opened Laplace
  import opened LaplaceColumns
  import opened ColumnBits
  import opened Powers

  /** The magnitude below which a determinant counts as zero. */
  const EPSILON: real := 0.0001

  function LastRows(rows: seq<Row>, n: nat): seq<Row> {
    if n <= |rows| then rows[|rows| - n..] else rows
  }

  /** The determinant of the last rows on the columns in x, as many rows as columns. */
  function DetOf(rows: seq<Row>, m: nat, x: nat): real {
    Det(LastRows(rows, Ones(x, m)), m, Columns(x, m))
  }

  /** The sets of n columns below m that extend the choice x made for the columns below i. */
  ghost predicate Extends(x: nat, y: nat, i: nat, n: nat, m: nat) {
    y < Pow2(m) && Ones(y, m) == n && Agree(x, y, i)
  }

  lemma ExtendsSelf(x: nat, y: nat, i: nat, n: nat, m: nat)
    requires i <= m && x < Pow2(i) && x < Pow2(m) && Ones(x, i) == n
    ensures Extends(x, y, i, n, m) <==> y == x
  {
    if Extends(x, y, i, n, m) {
      AgreeOnes(x, y, i);
      forall k: nat | k < m ensures Bit(x, k) <==> Bit(y, k) {
        if i <= k {
          NoneBeyond(y, i, m, k);
          NoHighBits(x, i, k);
        }
      }
      SameBits(x, y, m);
    } else if y == x {
      NoMoreOnes(x, i, m);
    }
  }

  lemma {:induction false} NoMoreOnes(x: nat, i: nat, m: nat)
    requires i <= m && x < Pow2(i)
    ensures Ones(x, m) == Ones(x, i)
  {
    if i < m {
      NoHighBits(x, i, m - 1);
      NoMoreOnes(x, i, m - 1);
    }
  }

  /** Column i is either left out, or chosen. */
  lemma ExtendsEither(x: nat, y: nat, i: nat, n: nat, m: nat)
    requires i < m && x < Pow2(i)
    ensures Extends(x, y, i, n, m) <==> Extends(x, y, i + 1, n, m) || Extends(SetBit(x, i), y, i + 1, n, m)
    ensures !(Extends(x, y, i + 1, n, m) && Extends(SetBit(x, i), y, i + 1, n, m))
  {
    NoHighBits(x, i, i);
    var z := SetBit(x, i);
    forall k: nat | k <= i ensures Bit(z, k) <==> (k == i || Bit(x, k)) {
      BitUp(x, i, k);
    }
    assert Agree(x, y, i + 1) <==> Agree(x, y, i) && !Bit(y, i) by {
      AgreeNext(x, y, i);
    }
    assert Agree(z, y, i + 1) <==> Agree(x, y, i) && Bit(y, i) by {
      AgreeNext(z, y, i);
      assert Agree(z, y, i) <==> Agree(x, y, i);
    }
  }

  lemma AgreeNext(x: nat, y: nat, i: nat)
    ensures Agree(x, y, i + 1) <==> Agree(x, y, i) && (Bit(x, i) <==> Bit(y, i))
  {
    if Agree(x, y, i) && (Bit(x, i) <==> Bit(y, i)) {
      forall k: nat | k < i + 1 ensures Bit(x, k) <==> Bit(y, k) {
      }
    }
  }

  /** With too few columns left, column i cannot be left out. */
  lemma NoRoom(x: nat, y: nat, i: nat, j: nat, n: nat, m: nat)
    requires i < m && x < Pow2(i) && Ones(x, i) == j && i + n - j >= m
    ensures !Extends(x, y, i + 1, n, m)
  {
    if Extends(x, y, i + 1, n, m) {
      NoMoreOnes(x, i, i + 1);
      AgreeOnes(x, y, i + 1);
      OnesGrow(y, i + 1, m);
    }
  }

  lemma SetBitOnes(x: nat, i: nat)
    requires x < Pow2(i)
    ensures SetBit(x, i) < Pow2(i + 1)
    ensures Ones(SetBit(x, i), i + 1) == Ones(x, i) + 1
  {
    NoHighBits(x, i, i);
    var z := SetBit(x, i);
    forall k: nat | k < i ensures Bit(z, k) <==> Bit(x, k) {
      BitUp(x, i, k);
    }
    AgreeOnes(z, x, i);
    BitUp(x, i, i);
  }

  /** One term of the expansion, from the entry for the set without column k. */
  lemma TermIs(rows: seq<Row>, m: nat, x: nat, n: nat, k: nat)
    requires 0 < n <= m == |rows| && Ones(x, m) == n && k < m
    ensures Term(LastRows(rows, n), m, Columns(x, m))(k)
         == if Bit(x, k) then Signed(Ones(x, k), Times(At(rows[m - n], k), DetOf(rows, m, FlipBit(x, k)))) else 0.0
  {
    if Bit(x, k) {
      FlipColumns(x, k, m);
      BelowColumns(x, m, k);
      assert LastRows(rows, n)[1..] == LastRows(rows, n - 1);
    }
  }

  function Product(sign: real, x: real, y: real): real {
    sign * x * y
  }

  lemma SignTimes(n: nat, x: real, y: real)
    ensures Product(Signed(n, 1.0), x, y) == Signed(n, Times(x, y))
  {
    if n % 2 != 0 {
      assert (-x) * y == -(x * y);
    }
  }

  /** A matrix holds the given rows in its first m rows and columns. */
  ghost predicate Holds(a: array2<real>, rows: seq<Row>, m: nat)
    reads a
  {
    |rows| == m && m <= a.Length0 && m <= a.Length1 &&
    forall r: nat, k: nat :: r < m && k < m ==> a[r, k] == At(rows[r], k)
  }

  /** The rows of a matrix. */
  ghost function Contents(a: array2<real>): (rows: seq<Row>)
    reads a
    ensures |rows| == a.Length0
    ensures forall r: nat :: r < a.Length0 ==> |rows[r]| == a.Length1
    ensures forall r: nat, k: nat :: r < a.Length0 && k < a.Length1 ==> rows[r][k] == a[r, k]
  {
    seq(a.Length0, (r: nat) requires r < a.Length0 reads a =>
      seq(a.Length1, (k: nat) requires k < a.Length1 reads a => a[r, k]))
  }

  function RowAt(rows: seq<Row>, k: nat): Row {
    if k < |rows| then rows[k] else []
  }

  /** Row k, column i of the product of two m by m matrices. */
  function ProductAt(a: seq<Row>, b: seq<Row>, m: nat, k: nat, i: nat): real {
    Sum(Products(a, b, k, i), m)
  }

  function Products(a: seq<Row>, b: seq<Row>, k: nat, i: nat): nat -> real {
    (j: nat) => Times(At(RowAt(a, k), j), At(RowAt(b, j), i))
  }

  /** The signed determinant of the matrix without row i and column j. */
  function Cofactor(rows: seq<Row>, m: nat, i: nat, j: nat): real
    requires i < |rows|
  {
    Signed(i + j, Det(Without(rows, i), m, Upto(m) - {j}))
  }

  /** b is the adjoint of a. */
  ghost predicate IsAdjoint(a: seq<Row>, b: seq<Row>, m: nat) {
    |a| == |b| == m && forall i: nat, j: nat :: i < m && j < m ==> At(b[j], i) == Cofactor(a, m, i, j)
  }

  /** A matrix times its adjoint is its determinant on the diagonal and zero elsewhere. */
  lemma TimesAdjoint(a: seq<Row>, b: seq<Row>, m: nat, k: nat, i: nat)
    requires IsAdjoint(a, b, m) && k < m && i < m
    ensures ProductAt(a, b, m, k, i) == if k == i then Det(a, m, Upto(m)) else 0.0
  {
    var f, g := Products(a, b, k, i), Cofactors(a[k], Without(a, i), i, m);
    forall j: nat | j < m ensures f(j) == g(j) {
      assert At(b[j], i) == Cofactor(a, m, i, j);
    }
    SumExt(f, g, m);
    RowTimesCofactors(a, k, i, m);
  }

  /** So is the adjoint times the matrix. */
  lemma AdjointTimes(a: seq<Row>, b: seq<Row>, m: nat, j: nat, l: nat)
    requires IsAdjoint(a, b, m) && j < m && l < m
    ensures ProductAt(b, a, m, j, l) == if j == l then Det(a, m, Upto(m)) else 0.0
  {
    var f, g := Products(b, a, j, l), ColumnCofactors(a, m, j, l);
    forall i: nat | i < m ensures f(i) == g(i) {
      assert At(b[j], i) == Cofactor(a, m, i, j);
    }
    SumExt(f, g, m);
    ColumnTimesCofactors(a, m, j, l);
  }

  /** b is c with every entry divided by d. */
  ghost predicate Divided(b: seq<Row>, c: seq<Row>, m: nat, d: real)
    requires d != 0.0
  {
    |b| == |c| == m && forall j: nat, i: nat :: j < m && i < m ==> At(b[j], i) == At(c[j], i) / d
  }

  /** The product of a and b is the identity. */
  ghost predicate IsIdentity(a: seq<Row>, b: seq<Row>, m: nat) {
    forall k: nat, i: nat :: k < m && i < m ==> ProductAt(a, b, m, k, i) == if k == i then 1.0 else 0.0
  }

  /** The adjoint divided by the determinant is the inverse, on either side. */
  lemma AdjointInverts(a: seq<Row>, c: seq<Row>, b: seq<Row>, m: nat)
    requires IsAdjoint(a, c, m) && Det(a, m, Upto(m)) != 0.0 && Divided(b, c, m, Det(a, m, Upto(m)))
    ensures IsIdentity(a, b, m) && IsIdentity(b, a, m)
  {
    forall k: nat, i: nat | k < m && i < m ensures ProductAt(a, b, m, k, i) == if k == i then 1.0 else 0.0 {
      TimesInverse(a, c, b, m, k, i);
    }
    forall k: nat, i: nat | k < m && i < m ensures ProductAt(b, a, m, k, i) == if k == i then 1.0 else 0.0 {
      InverseTimes(a, c, b, m, k, i);
    }
  }

  lemma InverseTimes(a: seq<Row>, c: seq<Row>, b: seq<Row>, m: nat, j: nat, l: nat)
    requires IsAdjoint(a, c, m) && Det(a, m, Upto(m)) != 0.0 && Divided(b, c, m, Det(a, m, Upto(m)))
    requires j < m && l < m
    ensures ProductAt(b, a, m, j, l) == if j == l then 1.0 else 0.0
  {
    var d := Det(a, m, Upto(m));
    DividedProduct(a, c, b, m, d, j, l);
    AdjointTimes(a, c, m, j, l);
    assert d / d == 1.0;
  }

  lemma DividedProduct(a: seq<Row>, c: seq<Row>, b: seq<Row>, m: nat, d: real, j: nat, l: nat)
    requires d != 0.0 && Divided(b, c, m, d) && j < m && l < m
    ensures ProductAt(b, a, m, j, l) == ProductAt(c, a, m, j, l) / d
  {
    var f, g, e := Products(c, a, j, l), Products(b, a, j, l), 1.0 / d;
    forall i: nat | i < m ensures g(i) == e * f(i) {
      DivideOutFirst(At(c[j], i), At(RowAt(a, i), l), d);
    }
    SumScale(f, e, g, m);
  }

  lemma DivideOutFirst(x: real, y: real, d: real)
    requires d != 0.0
    ensures Times(x / d, y) == (1.0 / d) * Times(x, y)
  {
    assert x / d == (1.0 / d) * x;
    MulAssoc(1.0 / d, x, y);
  }

  /** A matrix times its adjoint divided by its determinant is the identity. */
  lemma TimesInverse(a: seq<Row>, c: seq<Row>, b: seq<Row>, m: nat, k: nat, i: nat)
    requires IsAdjoint(a, c, m) && Det(a, m, Upto(m)) != 0.0 && Divided(b, c, m, Det(a, m, Upto(m)))
    requires k < m && i < m
    ensures ProductAt(a, b, m, k, i) == if k == i then 1.0 else 0.0
  {
    var d := Det(a, m, Upto(m));
    ProductDivided(a, c, b, m, d, k, i);
    TimesAdjoint(a, c, m, k, i);
    assert d / d == 1.0;
  }

  lemma ProductDivided(a: seq<Row>, c: seq<Row>, b: seq<Row>, m: nat, d: real, k: nat, i: nat)
    requires d != 0.0 && Divided(b, c, m, d) && k < m && i < m
    ensures ProductAt(a, b, m, k, i) == ProductAt(a, c, m, k, i) / d
  {
    var f, g, e := Products(a, c, k, i), Products(a, b, k, i), 1.0 / d;
    forall j: nat | j < m ensures g(j) == e * f(j) {
      DivideOut(At(RowAt(a, k), j), At(c[j], i), d);
    }
    SumScale(f, e, g, m);
  }

  lemma DivideOut(x: real, y: real, d: real)
    requires d != 0.0
    ensures Times(x, y / d) == (1.0 / d) * Times(x, y)
  {
    assert y / d == y * (1.0 / d);
    MulAssoc(x, y, 1.0 / d);
  }

  /** The rows that the adjoint's copy loop builds: row i and column j left out. */
  ghost function Minor(rows: seq<Row>, m: nat, i: nat, j: nat): (r: seq<Row>)
    ensures |r| == m
    ensures forall x: nat, y: nat :: x < m && y < m ==> At(r[x], y) == At(RowAt(rows, Skip(i, x)), Skip(j, y))
  {
    seq(m, (x: nat) requires x < m => seq(m, (y: nat) requires y < m => At(RowAt(rows, Skip(i, x)), Skip(j, y))))
  }

  lemma MinorIsCofactor(rows: seq<Row>, m: nat, i: nat, j: nat)
    requires |rows| == m + 1 && i <= m && j <= m
    ensures Det(Minor(rows, m, i, j), m, Upto(m)) == Det(Without(rows, i), m + 1, Upto(m + 1) - {j})
  {
    var rest, minor := Without(rows, i), Minor(rows, m, i, j);
    forall r: nat | r < m ensures rest[r] == RowAt(rows, Skip(i, r)) {
    }
    assert Dropped(minor, rest, j, m);
    DetDropped(minor, rest, j, m, Upto(m), Upto(m + 1) - {j});
  }

  /** The entry of the set of all columns. */
  lemma WholeIsDet(rows: seq<Row>, m: nat)
    requires |rows| == m
    ensures DetOf(rows, m, Pow2(m) - 1) == Det(rows, m, Upto(m))
  {
    var x := Pow2(m) - 1;
    forall k: nat | k < m ensures Bit(x, k) {
      AllOnes(m, k);
    }
    assert Columns(x, m) == Upto(m);
    BelowColumns(x, m, m);
    BelowUpto(m, m);
  }

  lemma EntryIsCofactor(rows: seq<Row>, m: nat, i: nat, j: nat)
    requires |rows| == m + 1 && i <= m && j <= m
    ensures DetOf(Minor(rows, m, i, j), m, Pow2(m) - 1) == Det(Without(rows, i), m + 1, Upto(m + 1) - {j})
  {
    WholeIsDet(Minor(rows, m, i, j), m);
    MinorIsCofactor(rows, m, i, j);
  }

  class Solver {
    const n: nat
    const det: array<real>
    const cof: array2<real>

    ghost predicate Valid() {
      det.Length == Pow2(n) && cof.Length0 == n && cof.Length1 == n
    }

    constructor (n: nat)
      ensures this.n == n && Valid() && fresh(det) && fresh(cof)
    {
      this.n := n;
      det := new real[Pow2(n)](_ => 0.0);
      cof := new real[n, n]((_, _) => 0.0);
    }

    /** The entry of a column set is its determinant. */
    ghost predicate Right(rows: seq<Row>, m: nat, y: nat)
      reads det
    {
      y < det.Length && det[y] == DetOf(rows, m, y)
    }

    ghost predicate Ready(rows: seq<Row>, m: nat, size: nat)
      reads det
    {
      forall y: nat :: y < Pow2(m) && Ones(y, m) == size ==> Right(rows, m, y)
    }

    /** The entry of a set without column k. */
    method Entry(x: nat, size: nat, m: nat, k: nat, ghost rows: seq<Row>) returns (entry: real)
      requires Valid() && 0 < size <= m <= n && k < m && Bit(x, k)
      requires x < Pow2(m) && Ones(x, m) == size
      requires Ready(rows, m, size - 1)
      ensures entry == DetOf(rows, m, FlipBit(x, k))
    {
      FlipColumns(x, k, m);
      entry := det[FlipBit(x, k)];
    }

    /** Adds the term of column k to the expansion, if the set holds it, and turns the sign. */
    method AddTerm(x: nat, size: nat, m: nat, k: nat, ghost rows: seq<Row>, d: real, sign: real)
      returns (d': real, sign': real)
      requires Valid() && 0 < size <= m <= n && Holds(cof, rows, m)
      requires x < Pow2(m) && Ones(x, m) == size && k < m
      requires Ready(rows, m, size - 1)
      requires sign == Signed(Ones(x, k), 1.0)
      ensures d' == d + Term(LastRows(rows, size), m, Columns(x, m))(k)
      ensures sign' == Signed(Ones(x, k + 1), 1.0)
    {
      TermIs(rows, m, x, size, k);
      if Bit(x, k) {
        var entry := Entry(x, size, m, k, rows);
        SignTimes(Ones(x, k), cof[m - size, k], entry);
        d' := d + Product(sign, cof[m - size, k], entry);
        sign' := -sign;
      } else {
        d', sign' := d, sign;
      }
    }

    /** Expands the determinant of a column set along the first of its rows. */
    method Expand(x: nat, size: nat, m: nat, ghost rows: seq<Row>) returns (d: real)
      requires Valid() && 0 < size <= m <= n && Holds(cof, rows, m)
      requires x < Pow2(m) && Ones(x, m) == size
      requires Ready(rows, m, size - 1)
      ensures d == DetOf(rows, m, x)
    {
      var sign := 1.0;
      d := 0.0;
      var k := 0;
      ghost var terms := Term(LastRows(rows, size), m, Columns(x, m));
      while k < m
        invariant k <= m
        invariant sign == Signed(Ones(x, k), 1.0)
        invariant d == Sum(terms, k)
      {
        d, sign := AddTerm(x, size, m, k, rows, d, sign);
        k := k + 1;
      }
    }

    /** Fills the entries of all sets of the given size that extend x, chosen among the columns below i. */
    method Dp(i: nat, j: nat, x: nat, size: nat, m: nat, ghost rows: seq<Row>)
      requires Valid() && 0 < size <= m <= n && Holds(cof, rows, m)
      requires i <= m && j <= size && i + size - j <= m
      requires x < Pow2(i) && Ones(x, i) == j
      requires Ready(rows, m, size - 1)
      modifies det
      ensures forall y: nat :: Extends(x, y, i, size, m) ==> Right(rows, m, y)
      ensures forall y: nat :: y < det.Length && !Extends(x, y, i, size, m) ==> det[y] == old(det[y])
      decreases m - i
    {
      Pow2Monotone(i, m);
      Pow2Monotone(m, n);
      if j == size {
        NoMoreOnes(x, i, m);
        var d := Expand(x, size, m, rows);
        det[x] := d;
        forall y: nat ensures Extends(x, y, i, size, m) <==> y == x {
          ExtendsSelf(x, y, i, size, m);
        }
        return;
      }
      forall y: nat
        ensures Extends(x, y, i, size, m) <==> Extends(x, y, i + 1, size, m) || Extends(SetBit(x, i), y, i + 1, size, m)
        ensures !(Extends(x, y, i + 1, size, m) && Extends(SetBit(x, i), y, i + 1, size, m))
        ensures i + size - j >= m ==> !Extends(x, y, i + 1, size, m)
      {
        ExtendsEither(x, y, i, size, m);
        if i + size - j >= m {
          NoRoom(x, y, i, j, size, m);
        }
      }
      SetBitOnes(x, i);
      if i + size - j < m {
        NoMoreOnes(x, i, i + 1);
        Pow2Monotone(i, i + 1);
        Dp(i + 1, j, x, size, m, rows);
      }
      Dp(i + 1, j + 1, SetBit(x, i), size, m, rows);
    }

    /** Fills the whole table: set sizes in turn, each from the one before. */
    method FillTable(m: nat, ghost rows: seq<Row>)
      requires Valid() && m <= n && Holds(cof, rows, m)
      requires det[0] == 1.0
      modifies det
      ensures forall y: nat :: y < Pow2(m) ==> Right(rows, m, y)
      ensures det[0] == 1.0
    {
      EmptyIsReady(m, rows);
      Pow2Monotone(m, n);
      var size := 1;
      while size <= m
        invariant 1 <= size <= m + 1
        invariant forall k: nat :: k < size ==> Ready(rows, m, k)
        invariant det[0] == 1.0
      {
        assert Ready(rows, m, size - 1);
        Layer(size, m, rows);
        size := size + 1;
      }
      forall y: nat | y < Pow2(m) ensures Right(rows, m, y) {
        OnesGrow(y, 0, m);
        assert Ready(rows, m, Ones(y, m));
      }
    }

    lemma EmptyIsReady(m: nat, rows: seq<Row>)
      requires Valid() && m <= n && |rows| == m && det[0] == 1.0
      ensures Ready(rows, m, 0)
    {
      forall y: nat | y < Pow2(m) && Ones(y, m) == 0 ensures Right(rows, m, y) {
        forall k: nat | k < m ensures Bit(y, k) <==> Bit(0, k) {
          NoneBeyond(y, 0, m, k);
          ZeroHasNone(k);
        }
        SameBits(y, 0, m);
      }
    }

    /** All sets of one size; the entries of the smaller ones stay. */
    method Layer(size: nat, m: nat, ghost rows: seq<Row>)
      requires Valid() && 0 < size <= m <= n && Holds(cof, rows, m)
      requires forall k: nat :: k < size ==> Ready(rows, m, k)
      modifies det
      ensures forall k: nat :: k < size + 1 ==> Ready(rows, m, k)
      ensures det[0] == old(det[0])
    {
      Pow2Monotone(0, m);
      Pow2Monotone(m, n);
      NoMoreOnes(0, 0, m);
      Dp(0, 0, 0, size, m, rows);
      forall y: nat | y < Pow2(m) && Ones(y, m) == size ensures Right(rows, m, y) {
        assert Extends(0, y, 0, size, m);
      }
      assert Ready(rows, m, size);
      forall k: nat | k < size ensures Ready(rows, m, k) {
        assert old(Ready(rows, m, k));
        forall y: nat | y < Pow2(m) && Ones(y, m) == k ensures Right(rows, m, y) {
          assert old(Right(rows, m, y));
        }
      }
    }

    /** Copies a matrix without row i and column j to the work matrix. */
    method CopyMinor(a: array2<real>, i: nat, j: nat)
      requires Valid() && a.Length0 == n && a.Length1 == n && a != cof && i < n && j < n
      modifies cof
      ensures Holds(cof, Minor(Contents(a), n - 1, i, j), n - 1)
    {
      ghost var minor := Minor(Contents(a), n - 1, i, j);
      var x, ci := 0, 0;
      while x < n
        invariant x <= n && ci == if x <= i then x else x - 1
        invariant Copied(minor, ci)
      {
        if x != i {
          CopyMinorRow(a, i, j, x, ci);
          ci := ci + 1;
        }
        x := x + 1;
      }
    }

    ghost predicate Copied(minor: seq<Row>, ci: nat)
      reads cof
    {
      |minor| < n && n <= cof.Length0 && n <= cof.Length1 && ci <= |minor| &&
      forall r: nat, k: nat :: r < ci && k < |minor| ==> cof[r, k] == At(minor[r], k)
    }

    method CopyMinorRow(a: array2<real>, i: nat, j: nat, x: nat, ci: nat)
      requires Valid() && a.Length0 == n && a.Length1 == n && a != cof && i < n && j < n
      requires x < n && ci < n - 1 && x == Skip(i, ci)
      requires Copied(Minor(Contents(a), n - 1, i, j), ci)
      modifies cof
      ensures Copied(Minor(Contents(a), n - 1, i, j), ci + 1)
    {
      ghost var minor := Minor(Contents(a), n - 1, i, j);
      var y, cj := 0, 0;
      while y < n
        invariant y <= n && cj == if y <= j then y else y - 1
        invariant Copied(minor, ci)
        invariant forall k: nat :: k < cj ==> cof[ci, k] == At(minor[ci], k)
      {
        if y != j {
          assert y == Skip(j, cj);
          cof[ci, cj] := a[x, y];
          cj := cj + 1;
        }
        y := y + 1;
      }
    }

    /** The determinant without row i and column j, with the table used again for the smaller matrix. */
    method MinorOf(a: array2<real>, i: nat, j: nat) returns (d: real)
      requires Valid() && a.Length0 == n && a.Length1 == n && a != cof && i < n && j < n
      requires det[0] == 1.0
      modifies cof, det
      ensures d == Det(Without(Contents(a), i), n, Upto(n) - {j})
      ensures det[0] == 1.0
    {
      CopyMinor(a, i, j);
      ghost var minor := Minor(Contents(a), n - 1, i, j);
      FillTable(n - 1, minor);
      d := WholeEntry(n - 1, minor);
      EntryIsCofactor(Contents(a), n - 1, i, j);
    }

    /** The entry of the set of all m columns. */
    method WholeEntry(m: nat, ghost rows: seq<Row>) returns (d: real)
      requires Valid() && m <= n && forall y: nat :: y < Pow2(m) ==> Right(rows, m, y)
      ensures d == DetOf(rows, m, Pow2(m) - 1)
    {
      Pow2Monotone(m, n);
      assert Right(rows, m, Pow2(m) - 1);
      d := det[Pow2(m) - 1];
    }

    method CofactorOf(a: array2<real>, i: nat, j: nat) returns (c: real)
      requires Valid() && a.Length0 == n && a.Length1 == n && a != cof && i < n && j < n
      requires det[0] == 1.0
      modifies cof, det
      ensures c == Cofactor(Contents(a), n, i, j)
      ensures det[0] == 1.0
    {
      var d := MinorOf(a, i, j);
      var sign := if (i + j) % 2 == 0 then 1.0 else -1.0;
      c := sign * d;
    }

    method Adjoint(a: array2<real>, adj: array2<real>)
      requires Valid() && a.Length0 == n && a.Length1 == n && adj.Length0 == n && adj.Length1 == n
      requires a != cof && a != adj && adj != cof
      requires det[0] == 1.0
      modifies cof, det, adj
      ensures IsAdjoint(Contents(a), Contents(adj), n)
      ensures det[0] == 1.0
    {
      var i := 0;
      while i < n
        invariant i <= n && det[0] == 1.0
        invariant forall r: nat, c: nat :: r < i && c < n ==> adj[c, r] == Cofactor(Contents(a), n, r, c)
      {
        AdjointColumn(a, adj, i);
        i := i + 1;
      }
    }

    method AdjointColumn(a: array2<real>, adj: array2<real>, i: nat)
      requires Valid() && a.Length0 == n && a.Length1 == n && adj.Length0 == n && adj.Length1 == n
      requires a != cof && a != adj && adj != cof
      requires det[0] == 1.0 && i < n
      modifies cof, det, adj
      ensures forall c: nat :: c < n ==> adj[c, i] == Cofactor(Contents(a), n, i, c)
      ensures forall r: nat, c: nat :: r < n && c < n && r != i ==> adj[c, r] == old(adj[c, r])
      ensures det[0] == 1.0
    {
      var j := 0;
      while j < n
        invariant j <= n && det[0] == 1.0
        invariant forall c: nat :: c < j ==> adj[c, i] == Cofactor(Contents(a), n, i, c)
        invariant forall r: nat, c: nat :: r < n && c < n && r != i ==> adj[c, r] == old(adj[c, r])
      {
        var c := CofactorOf(a, i, j);
        adj[j, i] := c;
        j := j + 1;
      }
    }

    /** Copies a whole matrix to the work matrix. */
    method CopyAll(a: array2<real>)
      requires Valid() && a.Length0 == n && a.Length1 == n && a != cof
      modifies cof
      ensures Holds(cof, Contents(a), n)
    {
      var x := 0;
      while x < n
        invariant x <= n
        invariant forall r: nat, k: nat :: r < x && k < n ==> cof[r, k] == a[r, k]
      {
        var y := 0;
        while y < n
          invariant y <= n
          invariant forall r: nat, k: nat :: r < x && k < n ==> cof[r, k] == a[r, k]
          invariant forall k: nat :: k < y ==> cof[x, k] == a[x, k]
        {
          cof[x, y] := a[x, y];
          y := y + 1;
        }
        x := x + 1;
      }
    }

    method DivideAll(adj: array2<real>, d: real, inv: array2<real>)
      requires d != 0.0 && adj != inv
      requires adj.Length0 == n && adj.Length1 == n && inv.Length0 == n && inv.Length1 == n
      modifies inv
      ensures Divided(Contents(inv), Contents(adj), n, d)
    {
      var i := 0;
      while i < n
        invariant i <= n
        invariant forall r: nat, k: nat :: r < i && k < n ==> inv[r, k] == adj[r, k] / d
      {
        var j := 0;
        while j < n
          invariant j <= n
          invariant forall r: nat, k: nat :: r < i && k < n ==> inv[r, k] == adj[r, k] / d
          invariant forall k: nat :: k < j ==> inv[i, k] == adj[i, k] / d
        {
          inv[i, j] := adj[i, j] / d;
          j := j + 1;
        }
        i := i + 1;
      }
    }

    /** The determinant of a matrix, with the table left ready for its adjoint. */
    method Determinant(a: array2<real>) returns (d: real)
      requires Valid() && a.Length0 == n && a.Length1 == n && a != cof
      modifies cof, det
      ensures d == Det(Contents(a), n, Upto(n))
      ensures det[0] == 1.0
    {
      det[0] := 1.0;
      CopyAll(a);
      FillTable(n, Contents(a));
      d := WholeEntry(n, Contents(a));
      WholeIsDet(Contents(a), n);
    }

    /**
     * Inverts a matrix: -1, with nothing written, exactly when the determinant is within EPSILON of
     * zero, otherwise 0 and the inverse. The result may overwrite the matrix.
     */
    method Inverse(a: array2<real>, inv: array2<real>) returns (r: int)
      requires Valid() && a.Length0 == n && a.Length1 == n && inv.Length0 == n && inv.Length1 == n
      requires a != cof && inv != cof
      modifies cof, det, inv
      ensures r == 0 || r == -1
      ensures r == -1 <==> -EPSILON < Det(old(Contents(a)), n, Upto(n)) < EPSILON
      ensures r == -1 ==> Contents(inv) == old(Contents(inv))
      ensures r == 0 ==>
        IsIdentity(old(Contents(a)), Contents(inv), n) && IsIdentity(Contents(inv), old(Contents(a)), n)
    {
      ghost var rows := Contents(a);
      var d := Determinant(a);
      if d - 0.0 < EPSILON && 0.0 - d < EPSILON {
        return -1;
      }
      var adj := new real[n, n];
      Adjoint(a, adj);
      DivideAll(adj, d, inv);
      AdjointInverts(rows, Contents(adj), Contents(inv), n);
      r := 0;
    }
  }
}

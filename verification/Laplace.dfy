// Determinants by Laplace expansion, over exact real arithmetic: swapping rows,
// equal rows, and expansion along any row.
module Laplace {

  type Row = seq<real>

  /** The entry of a row, zero beyond its end. */
  function At(row: Row, k: nat): real {
    if k < |row| then row[k] else 0.0
  }

  // ----- sums -----

  function Sum(f: nat -> real, m: nat): real {
    if m == 0 then 0.0 else Sum(f, m - 1) + f(m - 1)
  }

  lemma {:induction false} SumExt(f: nat -> real, g: nat -> real, m: nat)
    requires forall k: nat :: k < m ==> f(k) == g(k)
    ensures Sum(f, m) == Sum(g, m)
  {
    if m > 0 {
      SumExt(f, g, m - 1);
    }
  }

  lemma {:induction false} SumScale(f: nat -> real, a: real, g: nat -> real, m: nat)
    requires forall k: nat :: k < m ==> g(k) == a * f(k)
    ensures Sum(g, m) == a * Sum(f, m)
  {
    if m > 0 {
      SumScale(f, a, g, m - 1);
      Distribute(a, Sum(f, m - 1), f(m - 1));
    }
  }

  lemma Distribute(a: real, b: real, c: real)
    ensures a * (b + c) == a * b + a * c
  {
  }

  lemma {:induction false} SumZero(f: nat -> real, m: nat)
    requires forall k: nat :: k < m ==> f(k) == 0.0
    ensures Sum(f, m) == 0.0
  {
    if m > 0 {
      SumZero(f, m - 1);
    }
  }

  lemma {:induction false} SumPlus(f: nat -> real, g: nat -> real, h: nat -> real, m: nat)
    requires forall k: nat :: k < m ==> h(k) == f(k) + g(k)
    ensures Sum(h, m) == Sum(f, m) + Sum(g, m)
  {
    if m > 0 {
      SumPlus(f, g, h, m - 1);
    }
  }

  /** The sum over a column of a table. */
  function Column(t: (nat, nat) -> real, l: nat): nat -> real {
    (k: nat) => t(k, l)
  }

  function Line(t: (nat, nat) -> real, k: nat): nat -> real {
    (l: nat) => t(k, l)
  }

  function LineSums(t: (nat, nat) -> real, m: nat): nat -> real {
    (k: nat) => Sum(Line(t, k), m)
  }

  function ColumnSums(t: (nat, nat) -> real, n: nat): nat -> real {
    (l: nat) => Sum(Column(t, l), n)
  }

  /** A double sum can be taken in either order. */
  lemma {:induction false} SumSwap(t: (nat, nat) -> real, n: nat, m: nat)
    ensures Sum(LineSums(t, m), n) == Sum(ColumnSums(t, n), m)
  {
    if n == 0 {
      SumZero(ColumnSums(t, 0), m);
    } else {
      SumSwap(t, n - 1, m);
      SumPlus(ColumnSums(t, n - 1), Line(t, n - 1), ColumnSums(t, n), m);
    }
  }

  // ----- signs and positions -----

  /** d multiplied by (-1)^n. */
  function Signed(n: nat, d: real): real {
    if n % 2 == 0 then d else -d
  }

  lemma {:induction false} SumSigned(f: nat -> real, n: nat, g: nat -> real, m: nat)
    requires forall k: nat :: k < m ==> g(k) == Signed(n, f(k))
    ensures Sum(g, m) == Signed(n, Sum(f, m))
  {
    if m > 0 {
      SumSigned(f, n, g, m - 1);
    }
  }

  /** How many elements of c are below k. */
  function Below(c: set<nat>, k: nat): nat {
    if k == 0 then 0 else Below(c, k - 1) + if k - 1 in c then 1 else 0
  }

  lemma {:induction false} BelowWithout(c: set<nat>, k: nat, l: nat)
    requires k in c
    ensures Below(c - {k}, l) == if k < l then Below(c, l) - 1 else Below(c, l)
    ensures k < l ==> Below(c, l) > 0
  {
    if l > 0 {
      BelowWithout(c, k, l - 1);
    }
  }

  /** The signs of picking k then l and l then k are opposite. */
  lemma SignsOppose(c: set<nat>, k: nat, l: nat, d: real)
    requires k in c && l in c && k != l
    ensures Signed(Below(c, k) + Below(c - {k}, l), d) == -Signed(Below(c, l) + Below(c - {l}, k), d)
  {
    BelowWithout(c, k, l);
    BelowWithout(c, l, k);
  }

  // ----- the determinant -----

  /**
   * The determinant of the rows on the columns c, all below m, by expansion along the first row; the
   * sign of column k counts the columns of c before it.
   */
  function Det(rows: seq<Row>, m: nat, c: set<nat>): real
    decreases |rows|, 1
  {
    if rows == [] then 1.0 else Sum(Term(rows, m, c), m)
  }

  /** One term of the expansion along the first row. */
  function Term(rows: seq<Row>, m: nat, c: set<nat>): nat -> real
    requires rows != []
    decreases |rows|, 0
  {
    (k: nat) => Cell(rows[0], c, k, Det(rows[1..], m, c - {k}))
  }

  function Times(x: real, y: real): real {
    x * y
  }

  function Cell(a: Row, c: set<nat>, k: nat, minor: real): real {
    if k in c then Signed(Below(c, k), Times(At(a, k), minor)) else 0.0
  }

  /** The expansion along two rows: columns k, then l. */
  function Pairs(a: Row, b: Row, rest: seq<Row>, m: nat, c: set<nat>): (nat, nat) -> real {
    (k: nat, l: nat) => Pair(a, b, c, k, l, Det(rest, m, c - {k} - {l}))
  }

  function Pair(a: Row, b: Row, c: set<nat>, k: nat, l: nat, minor: real): real {
    if k in c && l in c && k != l
    then Signed(Below(c, k) + Below(c - {k}, l), At(a, k) * (At(b, l) * minor))
    else 0.0
  }

  lemma DetTwo(a: Row, b: Row, rest: seq<Row>, m: nat, c: set<nat>)
    ensures Det([a, b] + rest, m, c) == Sum(LineSums(Pairs(a, b, rest, m, c), m), m)
  {
    var rows := [a, b] + rest;
    assert rows[1..] == [b] + rest;
    var f, g := Term(rows, m, c), LineSums(Pairs(a, b, rest, m, c), m);
    forall k: nat | k < m ensures f(k) == g(k) {
      TwoTerms(a, b, rest, m, c, k);
    }
    SumExt(f, g, m);
  }

  lemma TwoTerms(a: Row, b: Row, rest: seq<Row>, m: nat, c: set<nat>, k: nat)
    ensures Sum(Line(Pairs(a, b, rest, m, c), k), m) == Cell(a, c, k, Det([b] + rest, m, c - {k}))
  {
    var outer, inner := Line(Pairs(a, b, rest, m, c), k), Term([b] + rest, m, c - {k});
    if k in c {
      forall l: nat | l < m ensures outer(l) == Signed(Below(c, k), Times(At(a, k), inner(l))) {
        PairOfTerms(a, b, rest, m, c, k, l);
      }
      SumOfScaled(inner, At(a, k), Below(c, k), outer, m);
    } else {
      SumZero(outer, m);
    }
  }

  lemma PairOfTerms(a: Row, b: Row, rest: seq<Row>, m: nat, c: set<nat>, k: nat, l: nat)
    requires k in c
    ensures Pairs(a, b, rest, m, c)(k, l) == Signed(Below(c, k), Times(At(a, k), Term([b] + rest, m, c - {k})(l)))
  {
    assert ([b] + rest)[1..] == rest;
    PairOfCells(a, b, c, k, l, Det(rest, m, c - {k} - {l}));
  }

  lemma SumOfScaled(f: nat -> real, x: real, n: nat, g: nat -> real, m: nat)
    requires forall k: nat :: k < m ==> g(k) == Signed(n, Times(x, f(k)))
    ensures Sum(g, m) == Signed(n, Times(x, Sum(f, m)))
  {
    var h := (k: nat) => Times(x, f(k));
    SumSigned(h, n, g, m);
    SumScale(f, x, h, m);
  }

  lemma PairOfCells(a: Row, b: Row, c: set<nat>, k: nat, l: nat, d: real)
    requires k in c
    ensures Pair(a, b, c, k, l, d) == Signed(Below(c, k), Times(At(a, k), Cell(b, c - {k}, l, d)))
  {
    if l in c && l != k {
      SignsJoin(Below(c, k), Below(c - {k}, l), At(a, k), At(b, l) * d);
    }
  }

  lemma SignsJoin(n: nat, n': nat, x: real, y: real)
    ensures Signed(n + n', x * y) == Signed(n, x * Signed(n', y))
  {
    SignIn(n', x, y);
    SignedTwice(n, n', x * y);
  }

  lemma SignedTwice(n: nat, n': nat, d: real)
    ensures Signed(n + n', d) == Signed(n, Signed(n', d))
  {
  }

  lemma SignIn(n: nat, x: real, y: real)
    ensures x * Signed(n, y) == Signed(n, x * y)
  {
  }

  /** Swapping the first two rows negates the determinant. */
  lemma SwapFirst(a: Row, b: Row, rest: seq<Row>, m: nat, c: set<nat>)
    ensures Det([a, b] + rest, m, c) == -Det([b, a] + rest, m, c)
  {
    var t, u := Pairs(a, b, rest, m, c), Pairs(b, a, rest, m, c);
    DetTwo(a, b, rest, m, c);
    DetTwo(b, a, rest, m, c);
    SumSwap(u, m, m);
    forall k: nat, l: nat ensures t(k, l) == -u(l, k) {
      PairsOppose(a, b, rest, m, c, k, l);
    }
    TransposedSums(t, u, m);
  }

  lemma TransposedSums(t: (nat, nat) -> real, u: (nat, nat) -> real, m: nat)
    requires forall k: nat, l: nat :: t(k, l) == -u(l, k)
    ensures Sum(LineSums(t, m), m) == -Sum(ColumnSums(u, m), m)
  {
    var f, g := LineSums(t, m), ColumnSums(u, m);
    forall k: nat | k < m ensures f(k) == -1.0 * g(k) {
      SumScale(Column(u, k), -1.0, Line(t, k), m);
    }
    SumScale(g, -1.0, f, m);
  }

  lemma PairsOppose(a: Row, b: Row, rest: seq<Row>, m: nat, c: set<nat>, k: nat, l: nat)
    ensures Pairs(a, b, rest, m, c)(k, l) == -Pairs(b, a, rest, m, c)(l, k)
  {
    assert c - {k} - {l} == c - {l} - {k};
    PairOpposes(a, b, c, k, l, Det(rest, m, c - {k} - {l}));
  }

  lemma PairOpposes(a: Row, b: Row, c: set<nat>, k: nat, l: nat, d: real)
    ensures Pair(a, b, c, k, l, d) == -Pair(b, a, c, l, k, d)
  {
    if k in c && l in c && k != l {
      SignsOppose(c, k, l, At(a, k) * (At(b, l) * d));
      Reassociate(At(a, k), At(b, l), d);
    }
  }

  lemma Reassociate(x: real, y: real, d: real)
    ensures x * (y * d) == y * (x * d)
  {
    MulAssoc(x, y, d);
    MulAssoc(y, x, d);
  }

  lemma MulAssoc(a: real, b: real, c: real)
    ensures (a * b) * c == a * (b * c)
  {
  }

  /** What holds up to a sign for all minors holds for the whole, when the first row is kept. */
  lemma SameFirstRow(a: Row, rest: seq<Row>, rest': seq<Row>, m: nat, c: set<nat>, n: nat)
    requires forall k: nat :: k in c && k < m ==> Det(rest, m, c - {k}) == Signed(n, Det(rest', m, c - {k}))
    ensures Det([a] + rest, m, c) == Signed(n, Det([a] + rest', m, c))
  {
    var rows, rows' := [a] + rest, [a] + rest';
    assert rows[1..] == rest && rows'[1..] == rest';
    var f, g := Term(rows', m, c), Term(rows, m, c);
    forall k: nat | k < m ensures g(k) == Signed(n, f(k)) {
      if k in c {
        SignedCell(a, c, k, n, Det(rest', m, c - {k}));
      }
    }
    SumSigned(f, n, g, m);
  }

  lemma SignedCell(a: Row, c: set<nat>, k: nat, n: nat, d: real)
    ensures Cell(a, c, k, Signed(n, d)) == Signed(n, Cell(a, c, k, d))
  {
    SignIn(n, At(a, k), d);
  }

  /** Moving a row over n others to the front multiplies the determinant by (-1)^n. */
  lemma {:induction false} MoveToFront(above: seq<Row>, r: Row, below: seq<Row>, m: nat, c: set<nat>)
    ensures Det(above + [r] + below, m, c) == Signed(|above|, Det([r] + above + below, m, c))
    decreases |above|
  {
    if above == [] {
      assert above + [r] + below == [r] + above + below;
    } else {
      var a, rest := above[0], above[1..];
      Regrouped(above, r, below);
      forall k: nat | k in c && k < m
        ensures Det(rest + [r] + below, m, c - {k}) == Signed(|rest|, Det([r] + rest + below, m, c - {k}))
      {
        MoveToFront(rest, r, below, m, c - {k});
      }
      SameFirstRow(a, rest + [r] + below, [r] + rest + below, m, c, |rest|);
      SwapFirst(a, r, rest + below, m, c);
    }
  }

  lemma Regrouped(above: seq<Row>, r: Row, below: seq<Row>)
    requires above != []
    ensures var a, rest := above[0], above[1..];
      && above + [r] + below == [a] + (rest + [r] + below)
      && [a] + ([r] + rest + below) == [a, r] + (rest + below)
      && [r, a] + (rest + below) == [r] + above + below
  {
  }

  /** A matrix with the same row twice has determinant zero. */
  lemma TwiceIsZero(r: Row, above: seq<Row>, below: seq<Row>, m: nat, c: set<nat>)
    ensures Det([r] + above + [r] + below, m, c) == 0.0
  {
    forall k: nat | k in c && k < m
      ensures Det(above + [r] + below, m, c - {k}) == Signed(|above|, Det([r] + above + below, m, c - {k}))
    {
      MoveToFront(above, r, below, m, c - {k});
    }
    SameFirstRow(r, above + [r] + below, [r] + above + below, m, c, |above|);
    assert [r] + above + [r] + below == [r] + (above + [r] + below);
    assert [r] + ([r] + above + below) == [r, r] + (above + below);
    SwapFirst(r, r, above + below, m, c);
  }

  // ----- minors -----

  /** The position of column k once column j is put back. */
  function Skip(j: nat, k: nat): nat {
    if k < j then k else k + 1
  }

  lemma {:induction false} SumSkip(f: nat -> real, g: nat -> real, j: nat, m: nat)
    requires j <= m && f(j) == 0.0
    requires forall k: nat :: k < m ==> g(k) == f(Skip(j, k))
    ensures Sum(f, m + 1) == Sum(g, m)
  {
    if j == m {
      SumExt(f, g, m);
    } else {
      SumSkip(f, g, j, m - 1);
    }
  }

  /** c is c' with its columns moved to make room for a column j that it does not hold. */
  ghost predicate Spread(c': set<nat>, c: set<nat>, j: nat) {
    j !in c && forall k: nat :: k in c' <==> Skip(j, k) in c
  }

  lemma {:induction false} BelowSkip(c': set<nat>, c: set<nat>, j: nat, k: nat)
    requires Spread(c', c, j)
    ensures Below(c', k) == Below(c, Skip(j, k))
  {
    if k > 0 {
      BelowSkip(c', c, j, k - 1);
      assert k - 1 in c' <==> Skip(j, k - 1) in c;
    }
  }

  /** The rows with column j taken out. */
  ghost predicate Dropped(rows': seq<Row>, rows: seq<Row>, j: nat, m: nat) {
    |rows'| == |rows| && forall r: nat, k: nat :: r < |rows| && k < m ==> At(rows'[r], k) == At(rows[r], Skip(j, k))
  }

  /** Leaving column j out of the set of columns is the same as taking it out of the rows. */
  lemma {:induction false} DetDropped(rows': seq<Row>, rows: seq<Row>, j: nat, m: nat, c': set<nat>, c: set<nat>)
    requires j <= m && Dropped(rows', rows, j, m) && Spread(c', c, j)
    ensures Det(rows', m, c') == Det(rows, m + 1, c)
    decreases |rows|
  {
    if rows != [] {
      var f, g := Term(rows, m + 1, c), Term(rows', m, c');
      assert Dropped(rows'[1..], rows[1..], j, m);
      forall k: nat | k < m ensures g(k) == f(Skip(j, k)) {
        if k in c' {
          DetDropped(rows'[1..], rows[1..], j, m, c' - {k}, c - {Skip(j, k)});
          BelowSkip(c', c, j, k);
        }
      }
      SumSkip(f, g, j, m);
    }
  }

  // ----- cofactors -----

  /** The columns below m. */
  function Upto(m: nat): (c: set<nat>)
    ensures forall k: nat :: k in c <==> k < m
  {
    if m == 0 then {} else Upto(m - 1) + {m - 1}
  }

  lemma {:induction false} BelowUpto(m: nat, k: nat)
    requires k <= m
    ensures Below(Upto(m), k) == k
  {
    if k > 0 {
      BelowUpto(m, k - 1);
    }
  }

  function Without(rows: seq<Row>, i: nat): seq<Row>
    requires i < |rows|
  {
    rows[..i] + rows[i + 1..]
  }

  /** The products of a row with the cofactors of row i: the determinant without row i and column j, signed by i + j. */
  function Cofactors(a: Row, rest: seq<Row>, i: nat, m: nat): nat -> real {
    (j: nat) => Times(At(a, j), Signed(i + j, Det(rest, m, Upto(m) - {j})))
  }

  lemma CofactorsAreDet(a: Row, rest: seq<Row>, i: nat, m: nat)
    ensures Sum(Cofactors(a, rest, i, m), m) == Signed(i, Det([a] + rest, m, Upto(m)))
  {
    var rows := [a] + rest;
    assert rows[1..] == rest;
    var f, g := Term(rows, m, Upto(m)), Cofactors(a, rest, i, m);
    forall j: nat | j < m ensures g(j) == Signed(i, f(j)) {
      BelowUpto(m, j);
      SignedProduct(i, j, At(a, j), Det(rest, m, Upto(m) - {j}));
    }
    SumSigned(f, i, g, m);
  }

  lemma SignedProduct(i: nat, j: nat, x: real, d: real)
    ensures Times(x, Signed(i + j, d)) == Signed(i, Signed(j, Times(x, d)))
  {
    SignIn(i + j, x, d);
    SignedTwice(i, j, x * d);
  }

  /** A row times the cofactors of row i is the determinant when it is row i, and zero when it is another one. */
  lemma RowTimesCofactors(rows: seq<Row>, k: nat, i: nat, m: nat)
    requires k < |rows| && i < |rows|
    ensures Sum(Cofactors(rows[k], Without(rows, i), i, m), m) == if k == i then Det(rows, m, Upto(m)) else 0.0
  {
    CofactorsAreDet(rows[k], Without(rows, i), i, m);
    if k == i {
      RowInFront(rows, i, m);
    } else {
      RowTwice(rows, k, i, m);
    }
  }

  lemma RowInFront(rows: seq<Row>, i: nat, m: nat)
    requires i < |rows|
    ensures Signed(i, Det([rows[i]] + Without(rows, i), m, Upto(m))) == Det(rows, m, Upto(m))
  {
    var above, r, below := rows[..i], rows[i], rows[i + 1..];
    assert rows == above + [r] + below;
    assert [r] + Without(rows, i) == [r] + above + below;
    MoveToFront(above, r, below, m, Upto(m));
    SignedTwice(i, i, Det(rows, m, Upto(m)));
  }

  lemma RowTwice(rows: seq<Row>, k: nat, i: nat, m: nat)
    requires k < |rows| && i < |rows| && k != i
    ensures Det([rows[k]] + Without(rows, i), m, Upto(m)) == 0.0
  {
    var r, rest, at := rows[k], Without(rows, i), if k < i then k else k - 1;
    assert rest == rest[..at] + [r] + rest[at + 1..];
    assert [r] + rest == [r] + rest[..at] + [r] + rest[at + 1..];
    TwiceIsZero(r, rest[..at], rest[at + 1..], m, Upto(m));
  }

  // ----- the identity matrix -----

  function UnitRow(m: nat, i: nat): Row {
    seq(m, k => if k == i then 1.0 else 0.0)
  }

  /** The rows of the identity matrix from row i on. */
  function UnitRows(m: nat, i: nat): seq<Row>
    decreases m - i
  {
    if i < m then [UnitRow(m, i)] + UnitRows(m, i + 1) else []
  }

  lemma {:induction false} NoneBelow(c: set<nat>, i: nat)
    requires forall k :: k in c ==> i <= k
    ensures Below(c, i) == 0
  {
    if i > 0 {
      NoneBelow(c, i - 1);
    }
  }

  lemma {:induction false} SumOfOne(f: nat -> real, m: nat, i: nat)
    requires i < m && forall k: nat :: k < m && k != i ==> f(k) == 0.0
    ensures Sum(f, m) == f(i)
  {
    if i < m - 1 {
      SumOfOne(f, m - 1, i);
    } else {
      SumZero(f, m - 1);
    }
  }

  /** Its determinant is 1. */
  lemma DetOfIdentity(m: nat)
    ensures Det(UnitRows(m, 0), m, Upto(m)) == 1.0
  {
    assert Upto(m) - Upto(0) == Upto(m);
    DetOfUnits(m, 0);
  }

  lemma {:induction false} DetOfUnits(m: nat, i: nat)
    requires i <= m
    ensures Det(UnitRows(m, i), m, Upto(m) - Upto(i)) == 1.0
    decreases m - i
  {
    if i < m {
      var rows, c := UnitRows(m, i), Upto(m) - Upto(i);
      var f := Term(rows, m, c);
      DetOfUnits(m, i + 1);
      NoneBelow(c, i);
      assert c - {i} == Upto(m) - Upto(i + 1) && rows[1..] == UnitRows(m, i + 1);
      forall k: nat | k < m ensures f(k) == if k == i then 1.0 else 0.0 {
        assert At(rows[0], k) == if k == i then 1.0 else 0.0;
      }
      SumOfOne(f, m, i);
    }
  }
}

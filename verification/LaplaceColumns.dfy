// Determinants by expansion along a column: a column times the cofactors of a column.
module LaplaceColumns {
  import opened Laplace

  /** As many rows as columns. */
  ghost predicate Square(rows: seq<Row>, m: nat, c: set<nat>) {
    Below(c, m) == |rows| && forall k :: k in c ==> k < m
  }

  lemma SquareWithout(rows: seq<Row>, m: nat, c: set<nat>, k: nat, i: nat)
    requires Square(rows, m, c) && k in c && i < |rows|
    ensures Square(Without(rows, i), m, c - {k})
  {
    BelowWithout(c, k, m);
  }

  lemma TwoColumns(rows: seq<Row>, m: nat, c: set<nat>, j: nat, k: nat)
    requires Square(rows, m, c) && j in c && k in c && j != k
    ensures |rows| >= 2
  {
    BelowWithout(c, k, m);
    BelowWithout(c - {k}, j, m);
  }

  // ----- more about sums -----

  lemma {:induction false} SumOneMore(f: nat -> real, g: nat -> real, j: nat, x: real, m: nat)
    requires j < m && f(j) == g(j) + x && forall k: nat :: k < m && k != j ==> f(k) == g(k)
    ensures Sum(f, m) == Sum(g, m) + x
  {
    if j < m - 1 {
      SumOneMore(f, g, j, x, m - 1);
    } else {
      SumExt(f, g, m - 1);
    }
  }

  lemma {:induction false} SumShift(f: nat -> real, g: nat -> real, n: nat)
    requires forall i: nat :: i < n ==> g(i) == f(i + 1)
    ensures Sum(f, n + 1) == f(0) + Sum(g, n)
  {
    if n > 0 {
      SumShift(f, g, n - 1);
    } else {
      assert Sum(f, 1) == Sum(f, 0) + f(0);
    }
  }

  // ----- expansion along a column -----

  /** One term of the expansion along column j: the rest is without row i. */
  function ColumnCell(rows: seq<Row>, c: set<nat>, j: nat, i: nat, minor: real): real {
    if i < |rows| then Signed(i + Below(c, j), Times(At(rows[i], j), minor)) else 0.0
  }

  function MinorAt(rows: seq<Row>, m: nat, c: set<nat>, i: nat): real {
    if i < |rows| then Det(Without(rows, i), m, c) else 0.0
  }

  function ColumnTerms(rows: seq<Row>, m: nat, c: set<nat>, j: nat): nat -> real {
    (i: nat) => ColumnCell(rows, c, j, i, MinorAt(rows, m, c - {j}, i))
  }

  /** The expansion along the first row and, of its minors, along column j. */
  function Grid(a: Row, rest: seq<Row>, m: nat, c: set<nat>, j: nat): (nat, nat) -> real {
    (k: nat, i: nat) => GridCell(a, rest, c, j, k, i, MinorAt(rest, m, c - {k} - {j}, i))
  }

  function GridCell(a: Row, rest: seq<Row>, c: set<nat>, j: nat, k: nat, i: nat, minor: real): real {
    if k in c && k != j && i < |rest|
    then Signed(Below(c, k) + (i + Below(c - {k}, j)), Times(At(a, k), Times(At(rest[i], j), minor)))
    else 0.0
  }

  /** The determinant can be expanded along any of its columns. */
  lemma {:induction false} ColumnExpands(rows: seq<Row>, m: nat, c: set<nat>, j: nat)
    requires Square(rows, m, c) && j in c
    ensures Det(rows, m, c) == Sum(ColumnTerms(rows, m, c, j), |rows|)
    decreases |rows|
  {
    assert rows != [] by { BelowWithout(c, j, m); }
    var a, rest := rows[0], rows[1..];
    assert rows == [a] + rest && Without(rows, 0) == rest;
    var f, g, x := Term(rows, m, c), LineSums(Grid(a, rest, m, c, j), |rest|), ColumnTerms(rows, m, c, j)(0);
    forall k: nat | k < m && k != j ensures f(k) == g(k) {
      if k in c {
        TwoColumns(rows, m, c, j, k);
        SquareWithout(rows, m, c, k, 0);
        ColumnExpands(rest, m, c - {k}, j);
        GridLine(a, rest, m, c, j, k);
      } else {
        GridLineZero(a, rest, m, c, j, k);
      }
    }
    GridLineZero(a, rest, m, c, j, j);
    FirstTerm(a, rest, m, c, j);
    SumOneMore(f, g, j, x, m);
    GridColumns(a, rest, m, c, j);
  }

  lemma GridLineZero(a: Row, rest: seq<Row>, m: nat, c: set<nat>, j: nat, k: nat)
    requires k !in c || k == j
    ensures LineSums(Grid(a, rest, m, c, j), |rest|)(k) == 0.0
  {
    SumZero(Line(Grid(a, rest, m, c, j), k), |rest|);
  }

  lemma FirstTerm(a: Row, rest: seq<Row>, m: nat, c: set<nat>, j: nat)
    requires j in c
    ensures ColumnTerms([a] + rest, m, c, j)(0) == Term([a] + rest, m, c)(j)
  {
    var rows := [a] + rest;
    assert Without(rows, 0) == rest && rows[1..] == rest;
  }

  /** A line of the grid adds up to the term of its column in the expansion along the first row. */
  lemma GridLine(a: Row, rest: seq<Row>, m: nat, c: set<nat>, j: nat, k: nat)
    requires k in c && k != j && Det(rest, m, c - {k}) == Sum(ColumnTerms(rest, m, c - {k}, j), |rest|)
    ensures Sum(Line(Grid(a, rest, m, c, j), k), |rest|) == Cell(a, c, k, Det(rest, m, c - {k}))
  {
    var line, inner := Line(Grid(a, rest, m, c, j), k), ColumnTerms(rest, m, c - {k}, j);
    forall i: nat | i < |rest| ensures line(i) == Signed(Below(c, k), Times(At(a, k), inner(i))) {
      GridInLine(a, rest, c, j, k, i, MinorAt(rest, m, c - {k} - {j}, i));
    }
    SumOfScaled(inner, At(a, k), Below(c, k), line, |rest|);
  }

  lemma GridInLine(a: Row, rest: seq<Row>, c: set<nat>, j: nat, k: nat, i: nat, d: real)
    requires k in c && k != j && i < |rest|
    ensures GridCell(a, rest, c, j, k, i, d) == Signed(Below(c, k), Times(At(a, k), ColumnCell(rest, c - {k}, j, i, d)))
  {
    JoinedSigns(Below(c, k), i + Below(c - {k}, j), At(a, k), Times(At(rest[i], j), d));
  }

  lemma JoinedSigns(n: nat, n': nat, x: real, y: real)
    ensures Signed(n + n', Times(x, y)) == Signed(n, Times(x, Signed(n', y)))
  {
    SignsJoin(n, n', x, y);
  }

  /** The columns of the grid add up to the remaining terms of the expansion along column j. */
  lemma GridColumns(a: Row, rest: seq<Row>, m: nat, c: set<nat>, j: nat)
    requires j in c
    ensures Sum(ColumnTerms([a] + rest, m, c, j), |rest| + 1)
         == ColumnTerms([a] + rest, m, c, j)(0) + Sum(LineSums(Grid(a, rest, m, c, j), |rest|), m)
  {
    var grid, terms := Grid(a, rest, m, c, j), ColumnTerms([a] + rest, m, c, j);
    forall i: nat | i < |rest| ensures ColumnSums(grid, m)(i) == terms(i + 1) {
      GridColumn(a, rest, m, c, j, i);
    }
    SumShift(terms, ColumnSums(grid, m), |rest|);
    SumSwap(grid, m, |rest|);
  }

  lemma GridColumn(a: Row, rest: seq<Row>, m: nat, c: set<nat>, j: nat, i: nat)
    requires j in c && i < |rest|
    ensures Sum(Column(Grid(a, rest, m, c, j), i), m) == ColumnTerms([a] + rest, m, c, j)(i + 1)
  {
    var rows, minor := [a] + rest, [a] + Without(rest, i);
    assert Without(rows, i + 1) == minor && minor[1..] == Without(rest, i);
    var column, inner, n := Column(Grid(a, rest, m, c, j), i), Term(minor, m, c - {j}), i + 1 + Below(c, j);
    forall k: nat | k < m ensures column(k) == Signed(n, Times(At(rest[i], j), inner(k))) {
      GridAt(a, rest, m, c, j, k, i);
    }
    SumOfScaled(inner, At(rest[i], j), n, column, m);
  }

  lemma GridAt(a: Row, rest: seq<Row>, m: nat, c: set<nat>, j: nat, k: nat, i: nat)
    requires j in c && i < |rest|
    ensures Grid(a, rest, m, c, j)(k, i)
         == Signed(i + 1 + Below(c, j),
                   Times(At(rest[i], j), Cell(a, c - {j}, k, Det(Without(rest, i), m, c - {j} - {k}))))
  {
    assert c - {k} - {j} == c - {j} - {k};
    GridCells(a, rest, c, j, k, i, Det(Without(rest, i), m, c - {j} - {k}));
  }

  lemma GridCells(a: Row, rest: seq<Row>, c: set<nat>, j: nat, k: nat, i: nat, d: real)
    requires j in c && i < |rest|
    ensures GridCell(a, rest, c, j, k, i, d)
      == Signed(i + 1 + Below(c, j), Times(At(rest[i], j), Cell(a, c - {j}, k, d)))
  {
    if k in c && k != j {
      GridParity(c, j, k, i);
      SameSigned(Below(c, k) + (i + Below(c - {k}, j)), i + 1 + Below(c, j), Below(c - {j}, k),
                 At(a, k), At(rest[i], j), d);
    } else {
      TimesZero(i + 1 + Below(c, j), At(rest[i], j));
    }
  }

  lemma GridParity(c: set<nat>, j: nat, k: nat, i: nat)
    requires j in c && k in c && k != j
    ensures (Below(c, k) + (i + Below(c - {k}, j))) % 2 == (i + 1 + Below(c, j) + Below(c - {j}, k)) % 2
  {
    BelowWithout(c, k, j);
    BelowWithout(c, j, k);
    TwoApart(Below(c, k) + (i + Below(c - {k}, j)), i + 1 + Below(c, j) + Below(c - {j}, k));
  }

  lemma TwoApart(a: nat, b: nat)
    requires a == b || a + 2 == b
    ensures a % 2 == b % 2
  {
  }

  lemma SameSigned(n: nat, n1: nat, n2: nat, x: real, y: real, d: real)
    requires n % 2 == (n1 + n2) % 2
    ensures Signed(n, Times(x, Times(y, d))) == Signed(n1, Times(y, Signed(n2, Times(x, d))))
  {
    Reassociate(x, y, d);
    SignsJoin(n1, n2, y, x * d);
  }

  lemma TimesZero(n: nat, y: real)
    ensures Signed(n, Times(y, 0.0)) == 0.0
  {
  }

  // ----- equal columns -----

  ghost predicate SameColumns(rows: seq<Row>, p: nat, q: nat) {
    forall i: nat :: i < |rows| ==> At(rows[i], p) == At(rows[i], q)
  }

  /** A determinant with two equal columns is zero. */
  lemma {:induction false} EqualColumns(rows: seq<Row>, m: nat, c: set<nat>, p: nat, q: nat)
    requires Square(rows, m, c) && p in c && q in c && p != q && SameColumns(rows, p, q)
    ensures Det(rows, m, c) == 0.0
    decreases |rows|
  {
    if k :| k in c && k != p && k != q {
      ColumnExpands(rows, m, c, k);
      forall i: nat | i < |rows| ensures ColumnTerms(rows, m, c, k)(i) == 0.0 {
        SquareWithout(rows, m, c, k, i);
        assert SameColumns(Without(rows, i), p, q);
        EqualColumns(Without(rows, i), m, c - {k}, p, q);
      }
      SumZero(ColumnTerms(rows, m, c, k), |rows|);
    } else {
      TwoEqualColumns(rows, m, c, p, q);
    }
  }

  lemma TwoEqualColumns(rows: seq<Row>, m: nat, c: set<nat>, p: nat, q: nat)
    requires Square(rows, m, c) && c == {p, q} && p != q && SameColumns(rows, p, q)
    ensures Det(rows, m, c) == 0.0
  {
    BelowWithout(c, p, m);
    BelowWithout(c - {p}, q, m);
    assert c - {p} == {q} && c - {p} - {q} == {};
    BelowNone(m);
    var a, b := rows[0], rows[1];
    ColumnExpands(rows, m, c, p);
    assert Without(rows, 0) == [b] && Without(rows, 1) == [a];
    OneByOne(a, m, q);
    OneByOne(b, m, q);
    var f := ColumnTerms(rows, m, c, p);
    assert Sum(f, 2) == Sum(f, 1) + f(1) && Sum(f, 1) == Sum(f, 0) + f(0);
    assert f(0) == Signed(Below(c, p), Times(At(a, p), At(b, q)));
    assert f(1) == Signed(1 + Below(c, p), Times(At(b, p), At(a, q)));
  }

  lemma {:induction false} BelowNone(m: nat)
    ensures Below({}, m) == 0
  {
    if m > 0 {
      BelowNone(m - 1);
    }
  }

  lemma OneByOne(a: Row, m: nat, q: nat)
    requires q < m
    ensures Det([a], m, {q}) == At(a, q)
  {
    BelowWithout({q}, q, m);
    BelowWithout({q}, q, q);
    assert {q} - {q} == {};
    BelowNone(m);
    BelowNone(q);
    ColumnExpands([a], m, {q}, q);
    var f := ColumnTerms([a], m, {q}, q);
    assert Sum(f, 1) == Sum(f, 0) + f(0) && Without([a], 0) == [];
  }

  // ----- cofactors of a column -----

  /** Only the entries in the columns of c matter. */
  lemma {:induction false} DetOnColumns(rows: seq<Row>, rows': seq<Row>, m: nat, c: set<nat>)
    requires |rows| == |rows'| && forall i: nat, k: nat :: i < |rows| && k in c ==> At(rows[i], k) == At(rows'[i], k)
    ensures Det(rows, m, c) == Det(rows', m, c)
    decreases |rows|
  {
    if rows != [] {
      var f, g := Term(rows, m, c), Term(rows', m, c);
      forall k: nat | k < m ensures f(k) == g(k) {
        if k in c {
          DetOnColumns(rows[1..], rows'[1..], m, c - {k});
        }
      }
      SumExt(f, g, m);
    }
  }

  /** The rows with column l in place of column j. */
  function Replaced(rows: seq<Row>, j: nat, l: nat, m: nat): (rows': seq<Row>)
    ensures |rows'| == |rows|
    ensures forall i: nat, k: nat :: i < |rows| && k < m ==> At(rows'[i], k) == At(rows[i], if k == j then l else k)
  {
    seq(|rows|, (i: nat) requires i < |rows| => seq(m, (k: nat) requires k < m => At(rows[i], if k == j then l else k)))
  }

  /** The products of column l with the cofactors of column j. */
  function ColumnCofactors(rows: seq<Row>, m: nat, j: nat, l: nat): nat -> real {
    (i: nat) =>
      if i < |rows| then Times(Signed(i + j, Det(Without(rows, i), m, Upto(m) - {j})), At(rows[i], l)) else 0.0
  }

  /**
   * A column times the cofactors of column j is the determinant when it is column j, and zero when it is
   * another one.
   */
  lemma ColumnTimesCofactors(rows: seq<Row>, m: nat, j: nat, l: nat)
    requires |rows| == m && j < m && l < m
    ensures Sum(ColumnCofactors(rows, m, j, l), m) == if l == j then Det(rows, m, Upto(m)) else 0.0
  {
    var rows', c := Replaced(rows, j, l, m), Upto(m);
    BelowUpto(m, m);
    BelowUpto(m, j);
    ColumnExpands(rows', m, c, j);
    var f, g := ColumnCofactors(rows, m, j, l), ColumnTerms(rows', m, c, j);
    forall i: nat | i < m ensures f(i) == g(i) {
      CofactorTerm(rows, m, j, l, i);
    }
    SumExt(f, g, m);
    ReplacedDet(rows, m, j, l);
  }

  lemma ReplacedDet(rows: seq<Row>, m: nat, j: nat, l: nat)
    requires |rows| == m && j < m && l < m
    ensures Det(Replaced(rows, j, l, m), m, Upto(m)) == if l == j then Det(rows, m, Upto(m)) else 0.0
  {
    var rows' := Replaced(rows, j, l, m);
    if l == j {
      DetOnColumns(rows', rows, m, Upto(m));
    } else {
      BelowUpto(m, m);
      assert SameColumns(rows', j, l);
      EqualColumns(rows', m, Upto(m), j, l);
    }
  }

  lemma CofactorTerm(rows: seq<Row>, m: nat, j: nat, l: nat, i: nat)
    requires |rows| == m && j < m && l < m && i < m
    ensures ColumnCofactors(rows, m, j, l)(i) == ColumnTerms(Replaced(rows, j, l, m), m, Upto(m), j)(i)
  {
    BelowUpto(m, j);
    ReplacedMinor(rows, m, j, l, i);
    SignOutOf(i + j, Det(Without(rows, i), m, Upto(m) - {j}), At(rows[i], l));
  }

  lemma ReplacedMinor(rows: seq<Row>, m: nat, j: nat, l: nat, i: nat)
    requires |rows| == m && j < m && l < m && i < m
    ensures Det(Without(Replaced(rows, j, l, m), i), m, Upto(m) - {j}) == Det(Without(rows, i), m, Upto(m) - {j})
  {
    DetOnColumns(Without(Replaced(rows, j, l, m), i), Without(rows, i), m, Upto(m) - {j});
  }

  lemma SignOutOf(n: nat, d: real, x: real)
    ensures Times(Signed(n, d), x) == Signed(n, Times(x, d))
  {
    assert n % 2 != 0 ==> (-d) * x == -(x * d);
  }
}

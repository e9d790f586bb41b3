/** Polynomials as formal power series: a coefficient list stands for the series that continues it
    with zeros, so polynomial identities are equalities and the series form a ring. */
module PowerSeries {
  import opened Rings

  type Series<T(00)> = s: imap<nat, T> | forall n: nat :: n in s
    ghost witness var x: T :| true; imap n: nat :: x

  ghost function Coef<T>(R: Ring<T>, p: seq<T>, n: nat): T {
    if n < |p| then p[n] else R.zero
  }

  /** The series of a coefficient list, lowest degree first. */
  ghost function Ser<T(00)>(R: Ring<T>, p: seq<T>): Series<T> {
    imap n: nat :: Coef(R, p, n)
  }

  ghost function SeriesAdd<T(00)>(R: Ring<T>, a: Series<T>, b: Series<T>): Series<T> {
    imap n: nat :: R.add(a[n], b[n])
  }

  ghost function SeriesSub<T(00)>(R: Ring<T>, a: Series<T>, b: Series<T>): Series<T> {
    imap n: nat :: R.sub(a[n], b[n])
  }

  ghost function Term<T(00)>(R: Ring<T>, a: Series<T>, b: Series<T>, n: nat, j: nat): T {
    if j <= n then R.mul(a[j], b[n - j]) else R.zero
  }

  ghost function Conv<T(00)>(R: Ring<T>, a: Series<T>, b: Series<T>, n: nat): T {
    Sum(R, (j: nat) => Term(R, a, b, n, j), n + 1)
  }

  ghost function SeriesMul<T(00)>(R: Ring<T>, a: Series<T>, b: Series<T>): Series<T> {
    imap n: nat :: Conv(R, a, b, n)
  }

  ghost function SeriesRing<T(00)>(R: Ring<T>): Ring<Series<T>> {
    Ring(Ser(R, []), Ser(R, [R.one]),
         (a: Series<T>, b: Series<T>) => SeriesAdd(R, a, b),
         (a: Series<T>, b: Series<T>) => SeriesSub(R, a, b),
         (a: Series<T>, b: Series<T>) => SeriesMul(R, a, b))
  }

  /* The series form a ring. */

  lemma AddLaws<T(00,!new)>(R: Ring<T>, a: Series<T>, b: Series<T>, c: Series<T>)
    requires IsRing(R)
    ensures SeriesAdd(R, a, b) == SeriesAdd(R, b, a)
    ensures SeriesAdd(R, SeriesAdd(R, a, b), c) == SeriesAdd(R, a, SeriesAdd(R, b, c))
    ensures SeriesAdd(R, a, Ser(R, [])) == a
    ensures SeriesAdd(R, SeriesSub(R, a, b), b) == a
  {
    forall n: nat
      ensures SeriesAdd(R, a, b)[n] == SeriesAdd(R, b, a)[n]
      ensures SeriesAdd(R, SeriesAdd(R, a, b), c)[n] == SeriesAdd(R, a, SeriesAdd(R, b, c))[n]
      ensures SeriesAdd(R, a, Ser(R, []))[n] == a[n]
      ensures SeriesAdd(R, SeriesSub(R, a, b), b)[n] == a[n]
    {
      assert At(a[n], b[n], c[n]);
    }
  }

  lemma ConvCommutes<T(00,!new)>(R: Ring<T>, a: Series<T>, b: Series<T>, n: nat)
    requires IsRing(R)
    ensures Conv(R, a, b, n) == Conv(R, b, a, n)
  {
    var f, g := (j: nat) => Term(R, a, b, n, j), (j: nat) => Term(R, b, a, n, j);
    forall j: nat | j < n + 1 ensures g(j) == f(n + 1 - 1 - j) {
      Mul3(R, b[j], a[n - j], b[j]);
    }
    SumReverse(R, f, g, n + 1);
  }

  lemma ConvOne<T(00,!new)>(R: Ring<T>, a: Series<T>, n: nat)
    requires IsRing(R)
    ensures Conv(R, Ser(R, [R.one]), a, n) == a[n]
  {
    var f := (j: nat) => Term(R, Ser(R, [R.one]), a, n, j);
    forall j: nat | 1 <= j < n + 1 ensures f(j) == R.zero {
      Units(R, a[n - j]);
    }
    SumTail(R, f, 1, n + 1);
    Units(R, a[n]);
    assert Sum(R, f, 1) == R.add(Sum(R, f, 0), f(0));
  }

  lemma ConvDistributes<T(00,!new)>(R: Ring<T>, a: Series<T>, b: Series<T>, c: Series<T>, n: nat)
    requires IsRing(R)
    ensures Conv(R, a, SeriesAdd(R, b, c), n) == R.add(Conv(R, a, b, n), Conv(R, a, c, n))
  {
    var f, g := (j: nat) => Term(R, a, b, n, j), (j: nat) => Term(R, a, c, n, j);
    var h := (j: nat) => Term(R, a, SeriesAdd(R, b, c), n, j);
    forall j: nat | j < n + 1 ensures h(j) == R.add(f(j), g(j)) {
      Distribute(R, a[j], b[n - j], c[n - j]);
    }
    SumAdd(R, f, g, h, n + 1);
  }

  /** One product a_j b_(i-j) c_(n-i) of the triple convolution. */
  ghost function Cell<T(00)>(R: Ring<T>, a: Series<T>, b: Series<T>, c: Series<T>, n: nat, i: nat, j: nat): T {
    if j <= i <= n then R.mul(R.mul(a[j], b[i - j]), c[n - i]) else R.zero
  }

  lemma CellsByRow<T(00,!new)>(R: Ring<T>, a: Series<T>, b: Series<T>, c: Series<T>, n: nat, i: nat)
    requires IsRing(R) && i <= n
    ensures R.mul(Conv(R, a, b, i), c[n - i]) == Sum(R, (j: nat) => Cell(R, a, b, c, n, i, j), i + 1)
  {
    var g, h := (j: nat) => Term(R, a, b, i, j), (j: nat) => Cell(R, a, b, c, n, i, j);
    var z := c[n - i];
    forall j: nat | j < i + 1 ensures h(j) == R.mul(z, g(j)) {
      Mul3(R, g(j), z, z);
    }
    SumScale(R, z, g, h, i + 1);
    Mul3(R, Sum(R, g, i + 1), z, z);
  }

  lemma CellAt<T(00,!new)>(R: Ring<T>, a: Series<T>, b: Series<T>, c: Series<T>, n: nat, j: nat, d: nat)
    requires IsRing(R) && j + d <= n
    ensures Cell(R, a, b, c, n, j + d, j) == R.mul(a[j], Term(R, b, c, n - j, d))
  {
    assert (j + d) - j == d && n - (j + d) == n - j - d;
    Mul3(R, a[j], b[d], c[n - j - d]);
  }

  lemma CellsByColumn<T(00,!new)>(R: Ring<T>, a: Series<T>, b: Series<T>, c: Series<T>, n: nat, j: nat)
    requires IsRing(R) && j <= n
    ensures R.mul(a[j], Conv(R, b, c, n - j)) == Sum(R, (d: nat) => Cell(R, a, b, c, n, j + d, j), n + 1 - j)
  {
    var g, h := (d: nat) => Term(R, b, c, n - j, d), (d: nat) => Cell(R, a, b, c, n, j + d, j);
    forall d: nat | d < n + 1 - j ensures h(d) == R.mul(a[j], g(d)) {
      CellAt(R, a, b, c, n, j, d);
    }
    SumScale(R, a[j], g, h, n + 1 - j);
  }

  ghost function Cells<T(00)>(R: Ring<T>, a: Series<T>, b: Series<T>, c: Series<T>, n: nat): (nat, nat) -> T {
    (i: nat, j: nat) => Cell(R, a, b, c, n, i, j)
  }

  lemma Row<T(00,!new)>(R: Ring<T>, a: Series<T>, b: Series<T>, c: Series<T>, n: nat, i: nat)
    requires IsRing(R) && i <= n
    ensures R.mul(Conv(R, a, b, i), c[n - i]) == RowSums(R, Cells(R, a, b, c, n))(i)
  {
    var f := Cells(R, a, b, c, n);
    CellsByRow(R, a, b, c, n, i);
    SumExt(R, (j: nat) => Cell(R, a, b, c, n, i, j), (j: nat) => f(i, j), i + 1);
  }

  lemma Column<T(00,!new)>(R: Ring<T>, a: Series<T>, b: Series<T>, c: Series<T>, n: nat, j: nat)
    requires IsRing(R) && j <= n
    ensures R.mul(a[j], Conv(R, b, c, n - j)) == ColumnSums(R, Cells(R, a, b, c, n), n + 1)(j)
  {
    CellsByColumn(R, a, b, c, n, j);
    SumExt(R, (d: nat) => Cell(R, a, b, c, n, j + d, j), FromDiagonal(Cells(R, a, b, c, n), j), n + 1 - j);
  }

  lemma ConvIs<T(00,!new)>(R: Ring<T>, a: Series<T>, b: Series<T>, n: nat, f: nat -> T)
    requires IsRing(R) && forall i: nat | i <= n :: R.mul(a[i], b[n - i]) == f(i)
    ensures Conv(R, a, b, n) == Sum(R, f, n + 1)
  {
    SumExt(R, (i: nat) => Term(R, a, b, n, i), f, n + 1);
  }

  lemma MulAssociates<T(00,!new)>(R: Ring<T>, a: Series<T>, b: Series<T>, c: Series<T>)
    requires IsRing(R)
    ensures SeriesMul(R, SeriesMul(R, a, b), c) == SeriesMul(R, a, SeriesMul(R, b, c))
  {
    var ab, bc := SeriesMul(R, a, b), SeriesMul(R, b, c);
    forall n: nat ensures SeriesMul(R, ab, c)[n] == SeriesMul(R, a, bc)[n] {
      CoefAssociates(R, a, b, c, ab, bc, n);
    }
  }

  lemma CoefAssociates<T(00,!new)>(R: Ring<T>, a: Series<T>, b: Series<T>, c: Series<T>, ab: Series<T>, bc: Series<T>, n: nat)
    requires IsRing(R) && ab == SeriesMul(R, a, b) && bc == SeriesMul(R, b, c)
    ensures Conv(R, ab, c, n) == Conv(R, a, bc, n)
  {
    var f := Cells(R, a, b, c, n);
    ByRows(R, a, b, c, ab, n, RowSums(R, f));
    ByColumns(R, a, b, c, bc, n, ColumnSums(R, f, n + 1));
    SumTriangle(R, f, n + 1);
  }

  lemma ByRows<T(00,!new)>(R: Ring<T>, a: Series<T>, b: Series<T>, c: Series<T>, ab: Series<T>, n: nat, rows: nat -> T)
    requires IsRing(R) && ab == SeriesMul(R, a, b) && rows == RowSums(R, Cells(R, a, b, c, n))
    ensures Conv(R, ab, c, n) == Sum(R, rows, n + 1)
  {
    forall i: nat | i <= n ensures R.mul(ab[i], c[n - i]) == rows(i) { Row(R, a, b, c, n, i); }
    ConvIs(R, ab, c, n, rows);
  }

  lemma ByColumns<T(00,!new)>(R: Ring<T>, a: Series<T>, b: Series<T>, c: Series<T>, bc: Series<T>, n: nat, columns: nat -> T)
    requires IsRing(R) && bc == SeriesMul(R, b, c) && columns == ColumnSums(R, Cells(R, a, b, c, n), n + 1)
    ensures Conv(R, a, bc, n) == Sum(R, columns, n + 1)
  {
    forall j: nat | j <= n ensures R.mul(a[j], bc[n - j]) == columns(j) { Column(R, a, b, c, n, j); }
    ConvIs(R, a, bc, n, columns);
  }

  lemma MulCommutes<T(00,!new)>(R: Ring<T>, a: Series<T>, b: Series<T>)
    requires IsRing(R)
    ensures SeriesMul(R, a, b) == SeriesMul(R, b, a)
  {
    forall n: nat ensures SeriesMul(R, a, b)[n] == SeriesMul(R, b, a)[n] {
      ConvCommutes(R, a, b, n);
    }
  }

  lemma MulOne<T(00,!new)>(R: Ring<T>, a: Series<T>)
    requires IsRing(R)
    ensures SeriesMul(R, Ser(R, [R.one]), a) == a
  {
    forall n: nat ensures SeriesMul(R, Ser(R, [R.one]), a)[n] == a[n] {
      ConvOne(R, a, n);
    }
  }

  lemma MulDistributes<T(00,!new)>(R: Ring<T>, a: Series<T>, b: Series<T>, c: Series<T>)
    requires IsRing(R)
    ensures SeriesMul(R, a, SeriesAdd(R, b, c)) == SeriesAdd(R, SeriesMul(R, a, b), SeriesMul(R, a, c))
  {
    forall n: nat
      ensures SeriesMul(R, a, SeriesAdd(R, b, c))[n] == SeriesAdd(R, SeriesMul(R, a, b), SeriesMul(R, a, c))[n]
    {
      ConvDistributes(R, a, b, c, n);
    }
  }

  lemma ProductLaws<T(00,!new)>(R: Ring<T>, a: Series<T>, b: Series<T>, c: Series<T>)
    requires IsRing(R)
    ensures SeriesMul(R, SeriesMul(R, a, b), c) == SeriesMul(R, a, SeriesMul(R, b, c))
    ensures SeriesMul(R, a, b) == SeriesMul(R, b, a) && SeriesMul(R, a, Ser(R, [R.one])) == a
    ensures SeriesMul(R, a, SeriesAdd(R, b, c)) == SeriesAdd(R, SeriesMul(R, a, b), SeriesMul(R, a, c))
  {
    MulAssociates(R, a, b, c);
    MulCommutes(R, a, b);
    MulCommutes(R, a, Ser(R, [R.one]));
    MulOne(R, a);
    MulDistributes(R, a, b, c);
  }

  /** S adds, subtracts and multiplies series. */
  ghost predicate ActsOnSeries<T(00,!new)>(S: Ring<Series<T>>, R: Ring<T>) {
    && S.zero == Ser(R, []) && S.one == Ser(R, [R.one])
    && (forall f: Series<T>, g: Series<T> {:trigger S.add(f, g)} :: S.add(f, g) == SeriesAdd(R, f, g))
    && (forall f: Series<T>, g: Series<T> {:trigger S.sub(f, g)} :: S.sub(f, g) == SeriesSub(R, f, g))
    && (forall f: Series<T>, g: Series<T> {:trigger S.mul(f, g)} :: S.mul(f, g) == SeriesMul(R, f, g))
  }

  lemma SeriesLaws<T(00,!new)>(S: Ring<Series<T>>, R: Ring<T>, a: Series<T>, b: Series<T>, c: Series<T>)
    requires IsRing(R) && ActsOnSeries(S, R)
    ensures Laws(S, a, b, c)
  {
    assert S.add(a, b) == S.add(b, a) && S.add(S.add(a, b), c) == S.add(a, S.add(b, c)) by { AddLaws(R, a, b, c); }
    assert S.add(a, S.zero) == a && S.add(S.sub(a, b), b) == a by { AddLaws(R, a, b, c); }
    assert S.mul(a, b) == S.mul(b, a) && S.mul(S.mul(a, b), c) == S.mul(a, S.mul(b, c)) by { ProductLaws(R, a, b, c); }
    assert S.mul(a, S.one) == a && S.mul(a, S.add(b, c)) == S.add(S.mul(a, b), S.mul(a, c)) by { ProductLaws(R, a, b, c); }
  }

  lemma SeriesIsRing<T(00,!new)>(R: Ring<T>)
    requires IsRing(R)
    ensures IsRing(SeriesRing(R)) && ActsOnSeries(SeriesRing(R), R)
  {
    forall a: Series<T>, b: Series<T>, c: Series<T> ensures Laws(SeriesRing(R), a, b, c) {
      SeriesLaws(SeriesRing(R), R, a, b, c);
    }
  }
}

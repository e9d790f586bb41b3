/** Commutative rings given by their operations, so that one proof serves the base field, its cubic
    extension and the polynomials over either. */
module Rings {

  datatype Ring<!T> = Ring(zero: T, one: T, add: (T, T) -> T, sub: (T, T) -> T, mul: (T, T) -> T)

  /** Instantiation point of the ring laws: they are used only where a proof asks for them. */
  ghost predicate At<T>(x: T, y: T, z: T) { true }

  ghost predicate Laws<T>(R: Ring<T>, x: T, y: T, z: T) {
    && R.add(x, y) == R.add(y, x)
    && R.add(R.add(x, y), z) == R.add(x, R.add(y, z))
    && R.add(x, R.zero) == x
    && R.add(R.sub(x, y), y) == x
    && R.mul(x, y) == R.mul(y, x)
    && R.mul(R.mul(x, y), z) == R.mul(x, R.mul(y, z))
    && R.mul(x, R.one) == x
    && R.mul(x, R.add(y, z)) == R.add(R.mul(x, y), R.mul(x, z))
  }

  ghost predicate IsRing<T(!new)>(R: Ring<T>) {
    forall x: T, y: T, z: T {:trigger At(x, y, z)} :: Laws(R, x, y, z)
  }

  ghost function Neg<T>(R: Ring<T>, x: T): T { R.sub(R.zero, x) }

  /* Consequences of the laws. */

  lemma Add3<T(!new)>(R: Ring<T>, x: T, y: T, z: T)
    requires IsRing(R)
    ensures R.add(x, y) == R.add(y, x)
    ensures R.add(R.add(x, y), z) == R.add(x, R.add(y, z))
    ensures R.add(R.add(x, y), z) == R.add(R.add(x, z), y)
  {
    assert At(x, y, z) && At(y, z, x) && At(x, z, y);
  }

  /** (x + y) + (z + w) == (x + z) + (y + w) */
  lemma Add4<T(!new)>(R: Ring<T>, x: T, y: T, z: T, w: T)
    requires IsRing(R)
    ensures R.add(R.add(x, y), R.add(z, w)) == R.add(R.add(x, z), R.add(y, w))
  {
    Add3(R, R.add(x, y), z, w);
    Add3(R, x, y, z);
    Add3(R, R.add(x, z), y, w);
  }

  lemma Mul3<T(!new)>(R: Ring<T>, x: T, y: T, z: T)
    requires IsRing(R)
    ensures R.mul(x, y) == R.mul(y, x)
    ensures R.mul(R.mul(x, y), z) == R.mul(x, R.mul(y, z))
    ensures R.mul(R.mul(x, y), z) == R.mul(R.mul(x, z), y)
    ensures R.mul(R.mul(x, y), z) == R.mul(y, R.mul(x, z))
  {
    assert At(x, y, z) && At(y, z, x) && At(x, z, y) && At(y, x, z);
  }

  /** (x * y) * (z * w) == (x * z) * (y * w) */
  lemma Mul4<T(!new)>(R: Ring<T>, x: T, y: T, z: T, w: T)
    requires IsRing(R)
    ensures R.mul(R.mul(x, y), R.mul(z, w)) == R.mul(R.mul(x, z), R.mul(y, w))
  {
    Mul3(R, R.mul(x, y), z, w);
    Mul3(R, x, y, z);
    Mul3(R, R.mul(x, z), y, w);
  }

  lemma Distribute<T(!new)>(R: Ring<T>, x: T, y: T, z: T)
    requires IsRing(R)
    ensures R.mul(x, R.add(y, z)) == R.add(R.mul(x, y), R.mul(x, z))
    ensures R.mul(R.add(y, z), x) == R.add(R.mul(y, x), R.mul(z, x))
  {
    assert At(x, y, z) && At(x, R.add(y, z), z) && At(x, z, y);
  }

  lemma Cancel<T(!new)>(R: Ring<T>, x: T, y: T, z: T)
    requires IsRing(R) && R.add(x, z) == R.add(y, z)
    ensures x == y
  {
    var n := R.sub(R.zero, z);
    assert At(R.zero, z, z) && At(n, z, z);
    assert At(x, z, n) && At(y, z, n) && At(z, n, n);
  }

  lemma Units<T(!new)>(R: Ring<T>, x: T)
    requires IsRing(R)
    ensures R.add(x, R.zero) == x && R.add(R.zero, x) == x
    ensures R.mul(x, R.one) == x && R.mul(R.one, x) == x
    ensures R.mul(x, R.zero) == R.zero && R.mul(R.zero, x) == R.zero
    ensures R.sub(x, R.zero) == x && R.sub(x, x) == R.zero
  {
    assert At(x, R.zero, R.zero) && At(x, R.one, R.zero) && At(R.zero, x, x);
    assert At(R.zero, R.zero, x) && At(R.mul(x, R.zero), R.zero, x);
    Cancel(R, R.mul(x, R.zero), R.zero, R.mul(x, R.zero));
    assert At(R.sub(x, R.zero), R.zero, x) && At(x, x, x);
    Cancel(R, R.sub(x, x), R.zero, x);
  }

  /** A difference is determined by the sum it solves. */
  lemma SubIs<T(!new)>(R: Ring<T>, x: T, y: T, d: T)
    requires IsRing(R)
    ensures R.sub(x, y) == d <==> R.add(d, y) == x
    ensures R.sub(x, y) == R.add(x, Neg(R, y))
  {
    assert At(x, y, y) && At(R.zero, y, y);
    if R.add(d, y) == x { Cancel(R, R.sub(x, y), d, y); }
    Add3(R, x, Neg(R, y), y);
    Units(R, x);
    Cancel(R, R.sub(x, y), R.add(x, Neg(R, y)), y);
  }

  lemma MulSub<T(!new)>(R: Ring<T>, x: T, y: T, z: T)
    requires IsRing(R)
    ensures R.mul(x, R.sub(y, z)) == R.sub(R.mul(x, y), R.mul(x, z))
    ensures R.mul(R.sub(y, z), x) == R.sub(R.mul(y, x), R.mul(z, x))
  {
    Distribute(R, x, R.sub(y, z), z);
    assert At(y, z, x);
    SubIs(R, R.mul(x, y), R.mul(x, z), R.mul(x, R.sub(y, z)));
    Mul3(R, x, y, z);
    Mul3(R, x, z, y);
    Mul3(R, x, R.sub(y, z), z);
  }

  lemma NegMul<T(!new)>(R: Ring<T>, x: T, y: T)
    requires IsRing(R)
    ensures R.mul(Neg(R, x), y) == Neg(R, R.mul(x, y)) == R.mul(x, Neg(R, y))
  {
    MulSub(R, y, R.zero, x);
    MulSub(R, x, R.zero, y);
    Units(R, x);
    Units(R, y);
    Mul3(R, x, y, y);
  }

  lemma NegNeg<T(!new)>(R: Ring<T>, x: T)
    requires IsRing(R)
    ensures Neg(R, Neg(R, x)) == x
  {
    SubIs(R, R.zero, Neg(R, x), x);
    SubIs(R, R.zero, x, Neg(R, x));
    Add3(R, x, Neg(R, x), x);
  }

  /* Powers. */

  ghost function Pow<T>(R: Ring<T>, x: T, n: nat): T {
    if n == 0 then R.one else R.mul(Pow(R, x, n - 1), x)
  }

  lemma {:induction false} PowAdd<T(!new)>(R: Ring<T>, x: T, m: nat, n: nat)
    requires IsRing(R)
    ensures Pow(R, x, m + n) == R.mul(Pow(R, x, m), Pow(R, x, n))
  {
    if n == 0 {
      Units(R, Pow(R, x, m));
    } else {
      PowAdd(R, x, m, n - 1);
      Mul3(R, Pow(R, x, m), Pow(R, x, n - 1), x);
    }
  }

  lemma {:induction false} PowMul<T(!new)>(R: Ring<T>, x: T, m: nat, n: nat)
    requires IsRing(R)
    ensures Pow(R, x, m * n) == Pow(R, Pow(R, x, m), n)
  {
    if n > 0 {
      PowMul(R, x, m, n - 1);
      assert m * n == m * (n - 1) + m;
      PowAdd(R, x, m * (n - 1), m);
    } else {
      assert m * n == 0;
    }
  }

  lemma {:induction false} PowOfProduct<T(!new)>(R: Ring<T>, x: T, y: T, n: nat)
    requires IsRing(R)
    ensures Pow(R, R.mul(x, y), n) == R.mul(Pow(R, x, n), Pow(R, y, n))
  {
    if n == 0 {
      Units(R, R.one);
    } else {
      PowOfProduct(R, x, y, n - 1);
      Mul4(R, Pow(R, x, n - 1), Pow(R, y, n - 1), x, y);
    }
  }

  lemma {:induction false} PowOne<T(!new)>(R: Ring<T>, n: nat)
    requires IsRing(R)
    ensures Pow(R, R.one, n) == R.one
  {
    if n > 0 {
      PowOne(R, n - 1);
      Units(R, R.one);
    }
  }

  lemma PowSmall<T(!new)>(R: Ring<T>, x: T)
    requires IsRing(R)
    ensures Pow(R, x, 1) == x && Pow(R, x, 2) == R.mul(x, x)
  {
    Units(R, x);
    assert Pow(R, x, 1) == R.mul(Pow(R, x, 0), x);
    assert Pow(R, x, 2) == R.mul(Pow(R, x, 1), x);
  }

  /** An odd power of an element whose square is one. */
  lemma {:induction false} OddPow<T(!new)>(R: Ring<T>, x: T, n: nat)
    requires IsRing(R) && R.mul(x, x) == R.one
    ensures Pow(R, x, 2 * n + 1) == x
  {
    PowMul(R, x, 2, n);
    PowSmall(R, x);
    PowOne(R, n);
    Units(R, x);
  }

  /* Finite sums. */

  ghost function Sum<T>(R: Ring<T>, f: nat -> T, n: nat): T {
    if n == 0 then R.zero else R.add(Sum(R, f, n - 1), f(n - 1))
  }

  lemma {:induction false} SumExt<T>(R: Ring<T>, f: nat -> T, g: nat -> T, n: nat)
    requires forall i: nat | i < n :: f(i) == g(i)
    ensures Sum(R, f, n) == Sum(R, g, n)
  {
    if n > 0 { SumExt(R, f, g, n - 1); }
  }

  lemma {:induction false} SumAdd<T(!new)>(R: Ring<T>, f: nat -> T, g: nat -> T, h: nat -> T, n: nat)
    requires IsRing(R)
    requires forall i: nat | i < n :: h(i) == R.add(f(i), g(i))
    ensures Sum(R, h, n) == R.add(Sum(R, f, n), Sum(R, g, n))
  {
    if n == 0 {
      Units(R, R.zero);
    } else {
      SumAdd(R, f, g, h, n - 1);
      Add4(R, Sum(R, f, n - 1), Sum(R, g, n - 1), f(n - 1), g(n - 1));
    }
  }

  lemma {:induction false} SumScale<T(!new)>(R: Ring<T>, c: T, f: nat -> T, h: nat -> T, n: nat)
    requires IsRing(R)
    requires forall i: nat | i < n :: h(i) == R.mul(c, f(i))
    ensures Sum(R, h, n) == R.mul(c, Sum(R, f, n))
  {
    if n == 0 {
      Units(R, c);
    } else {
      SumScale(R, c, f, h, n - 1);
      Distribute(R, c, Sum(R, f, n - 1), f(n - 1));
    }
  }

  /** A sum whose terms from m on vanish. */
  lemma {:induction false} SumTail<T(!new)>(R: Ring<T>, f: nat -> T, m: nat, n: nat)
    requires IsRing(R) && m <= n
    requires forall i: nat | m <= i < n :: f(i) == R.zero
    ensures Sum(R, f, n) == Sum(R, f, m)
    decreases n
  {
    if m < n {
      SumTail(R, f, m, n - 1);
      Units(R, Sum(R, f, n - 1));
    }
  }

  /** Taking the first term out. */
  lemma {:induction false} SumHead<T(!new)>(R: Ring<T>, f: nat -> T, g: nat -> T, n: nat)
    requires IsRing(R)
    requires forall i: nat | i < n :: g(i) == f(i + 1)
    ensures Sum(R, f, n + 1) == R.add(f(0), Sum(R, g, n))
  {
    if n == 0 {
      Units(R, f(0));
      assert Sum(R, f, 1) == R.add(Sum(R, f, 0), f(0));
    } else {
      SumHead(R, f, g, n - 1);
      Add3(R, f(0), Sum(R, g, n - 1), f(n));
    }
  }

  lemma {:induction false} SumReverse<T(!new)>(R: Ring<T>, f: nat -> T, g: nat -> T, n: nat)
    requires IsRing(R)
    requires forall i: nat | i < n :: g(i) == f(n - 1 - i)
    ensures Sum(R, f, n) == Sum(R, g, n)
  {
    if n > 0 {
      var h := (i: nat) => g(i + 1);
      SumHead(R, g, h, n - 1);
      SumReverse(R, f, h, n - 1);
      Add3(R, Sum(R, f, n - 1), f(n - 1), f(n - 1));
    }
  }

  /** Exchanging the order of a double sum. */
  lemma {:induction false} SumSwap<T(!new)>(R: Ring<T>, f: (nat, nat) -> T, m: nat, n: nat)
    requires IsRing(R)
    ensures Sum(R, (i: nat) => Sum(R, (j: nat) => f(i, j), n), m)
         == Sum(R, (j: nat) => Sum(R, (i: nat) => f(i, j), m), n)
  {
    var rows := (i: nat) => Sum(R, (j: nat) => f(i, j), n);
    var cols := (j: nat) => Sum(R, (i: nat) => f(i, j), m);
    if m == 0 {
      SumTail(R, cols, 0, n);
    } else {
      SumSwap(R, f, m - 1, n);
      var shorter := (j: nat) => Sum(R, (i: nat) => f(i, j), m - 1);
      SumAdd(R, shorter, (j: nat) => f(m - 1, j), cols, n);
    }
  }

  /** Sums along the rows 0 <= j <= i of a triangle, and along its columns j <= i < n. */
  ghost function RowSums<T>(R: Ring<T>, f: (nat, nat) -> T): nat -> T {
    (i: nat) => Sum(R, (j: nat) => f(i, j), i + 1)
  }

  ghost function FromDiagonal<T>(f: (nat, nat) -> T, j: nat): nat -> T { (d: nat) => f(j + d, j) }

  ghost function ColumnSums<T>(R: Ring<T>, f: (nat, nat) -> T, n: nat): nat -> T {
    (j: nat) => Sum(R, FromDiagonal(f, j), if j < n then n - j else 0)
  }

  lemma ColumnGrows<T(!new)>(R: Ring<T>, f: (nat, nat) -> T, n: nat, j: nat)
    requires IsRing(R) && j < n
    ensures ColumnSums(R, f, n)(j) == R.add(ColumnSums(R, f, n - 1)(j), f(n - 1, j))
  {
    var g := FromDiagonal(f, j);
    assert Sum(R, g, n - j) == R.add(Sum(R, g, n - j - 1), g(n - j - 1));
  }

  /** The triangle 0 <= j <= i < n summed by rows and by columns. */
  lemma {:induction false} SumTriangle<T(!new)>(R: Ring<T>, f: (nat, nat) -> T, n: nat)
    requires IsRing(R)
    ensures Sum(R, RowSums(R, f), n) == Sum(R, ColumnSums(R, f, n), n)
  {
    if n > 0 {
      var short, last := ColumnSums(R, f, n - 1), (j: nat) => f(n - 1, j);
      SumTriangle(R, f, n - 1);
      forall j: nat | j < n ensures ColumnSums(R, f, n)(j) == R.add(short(j), last(j)) { ColumnGrows(R, f, n, j); }
      SumAdd(R, short, last, ColumnSums(R, f, n), n);
      assert short(n - 1) == R.zero;
      SumTail(R, short, n - 1, n);
      assert RowSums(R, f)(n - 1) == Sum(R, last, n);
    }
  }

  /* Fields. */

  datatype Field<!T> = Field(ring: Ring<T>, inv: T -> T)

  ghost predicate IsField<T(!new)>(F: Field<T>) {
    && IsRing(F.ring)
    && F.ring.one != F.ring.zero
    && forall x {:trigger F.inv(x)} :: x != F.ring.zero ==> F.ring.mul(x, F.inv(x)) == F.ring.one
  }

  lemma NonZeroProduct<T(!new)>(F: Field<T>, x: T, y: T)
    requires IsField(F) && x != F.ring.zero && y != F.ring.zero
    ensures F.ring.mul(x, y) != F.ring.zero
  {
    var R, i := F.ring, F.inv(x);
    if R.mul(x, y) == R.zero {
      Mul3(R, x, i, y);
      Mul3(R, i, R.mul(x, y), y);
      Units(R, y);
      Units(R, i);
    }
  }
}

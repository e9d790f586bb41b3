/** Identities between series that division and the extended Euclidean algorithm rest on. */
module SeriesIdentities {
  import opened Rings
  import opened PowerSeries
  import opened Polynomials

  /** (q + m) b + r == q b + (r + m b) */
  lemma MoveTerm<T(!new)>(S: Ring<T>, q: T, m: T, b: T, r: T)
    requires IsRing(S)
    ensures S.add(S.mul(S.add(q, m), b), r) == S.add(S.mul(q, b), S.add(r, S.mul(m, b)))
  {
    Distribute(S, b, q, m);
    Add3(S, S.mul(q, b), S.mul(m, b), r);
    Add3(S, r, S.mul(m, b), r);
  }

  /** (x + y) - (s + t) == (x - s) + (y - t) */
  lemma SubOfSums<T(!new)>(R: Ring<T>, x: T, y: T, s: T, t: T)
    requires IsRing(R)
    ensures R.sub(R.add(x, y), R.add(s, t)) == R.add(R.sub(x, s), R.sub(y, t))
  {
    SubIs(R, x, s, R.sub(x, s));
    SubIs(R, y, t, R.sub(y, t));
    Add4(R, R.sub(x, s), R.sub(y, t), s, t);
    SubIs(R, R.add(x, y), R.add(s, t), R.add(R.sub(x, s), R.sub(y, t)));
  }

  /** From x = u a + v b, y = w a + z b and x = q y + r, the combination for r. */
  lemma CombineCofactors<T(!new)>(S: Ring<T>, a: T, b: T, q: T, u: T, v: T, w: T, z: T, x: T, y: T, r: T)
    requires IsRing(S)
    requires x == S.add(S.mul(u, a), S.mul(v, b)) && y == S.add(S.mul(w, a), S.mul(z, b))
    requires x == S.add(S.mul(q, y), r)
    ensures r == S.add(S.mul(S.sub(u, S.mul(q, w)), a), S.mul(S.sub(v, S.mul(q, z)), b))
  {
    Add3(S, S.mul(q, y), r, r);
    SubIs(S, x, S.mul(q, y), r);
    Distribute(S, q, S.mul(w, a), S.mul(z, b));
    Mul3(S, q, w, a);
    Mul3(S, q, z, b);
    MulSub(S, a, u, S.mul(q, w));
    MulSub(S, b, v, S.mul(q, z));
    SubOfSums(S, S.mul(u, a), S.mul(v, b), S.mul(S.mul(q, w), a), S.mul(S.mul(q, z), b));
  }

  lemma SetCoefficient<T(00,!new)>(R: Ring<T>, q: seq<T>, q': seq<T>, c: T, e: nat)
    requires IsRing(R)
    requires forall n: nat :: Coef(R, q', n) == if n == e then c else Coef(R, q, n)
    requires Coef(R, q, e) == R.zero
    ensures Ser(R, q') == SeriesAdd(R, Ser(R, q), Ser(R, Mono(R, c, e)))
  {
    forall n: nat ensures Ser(R, q')[n] == SeriesAdd(R, Ser(R, q), Ser(R, Mono(R, c, e)))[n] {
      Units(R, Coef(R, q, n));
      Units(R, c);
    }
  }

  /** One step of long division: r = r' + c x^e b, and the quotient gets c at e. */
  lemma DivisionStep<T(00,!new)>(R: Ring<T>, a: Series<T>, b: seq<T>, q: seq<T>, q': seq<T>, r: seq<T>, r': seq<T>, c: T, e: nat)
    requires IsRing(R)
    requires a == SeriesAdd(R, SeriesMul(R, Ser(R, q), Ser(R, b)), Ser(R, r))
    requires forall n: nat :: Coef(R, q', n) == if n == e then c else Coef(R, q, n)
    requires Coef(R, q, e) == R.zero
    requires forall n: nat :: Coef(R, r, n) == Shifted(R, r', c, e, b, n)
    ensures a == SeriesAdd(R, SeriesMul(R, Ser(R, q'), Ser(R, b)), Ser(R, r'))
  {
    AddShifted(R, r', c, e, b, r);
    SetCoefficient(R, q, q', c, e);
    SeriesIsRing(R);
    MoveTerm(SeriesRing(R), Ser(R, q), Ser(R, Mono(R, c, e)), Ser(R, b), Ser(R, r'));
  }

  /** Coefficient n of p + a b. */
  ghost function ProductPlus<T(00)>(R: Ring<T>, a: seq<T>, b: seq<T>, p: seq<T>, n: nat): T {
    R.add(Conv(R, Ser(R, a), Ser(R, b), n), Coef(R, p, n))
  }

  /** a = q b + r, coefficient by coefficient. */
  ghost predicate Divided<T(00)>(R: Ring<T>, a: seq<T>, b: seq<T>, q: seq<T>, r: seq<T>) {
    forall n: nat :: Coef(R, a, n) == ProductPlus(R, q, b, r, n)
  }

  /** a = q b + r with r of degree below that of b. */
  ghost predicate IsRemainder<T(00)>(R: Ring<T>, a: seq<T>, b: seq<T>, q: seq<T>, r: seq<T>) {
    Divided(R, a, b, q, r) && forall n: nat | Degree(R, b) <= n :: Coef(R, r, n) == R.zero
  }

  lemma DividedSeries<T(00)>(R: Ring<T>, a: seq<T>, b: seq<T>, q: seq<T>, r: seq<T>)
    ensures Divided(R, a, b, q, r)
       <==> Ser(R, a) == SeriesAdd(R, SeriesMul(R, Ser(R, q), Ser(R, b)), Ser(R, r))
  {
    var x, y := Ser(R, a), SeriesAdd(R, SeriesMul(R, Ser(R, q), Ser(R, b)), Ser(R, r));
    assert forall n: nat :: x[n] == Coef(R, a, n) && y[n] == ProductPlus(R, q, b, r, n);
    if x == y {
      forall n: nat ensures Coef(R, a, n) == ProductPlus(R, q, b, r, n) { assert x[n] == y[n]; }
    }
  }

  /** c = a b, coefficient by coefficient. */
  ghost predicate IsProduct<T(00)>(R: Ring<T>, a: seq<T>, b: seq<T>, c: seq<T>) {
    forall n: nat :: Coef(R, c, n) == Conv(R, Ser(R, a), Ser(R, b), n)
  }

  lemma ProductSeries<T(00)>(R: Ring<T>, a: seq<T>, b: seq<T>, c: seq<T>)
    ensures IsProduct(R, a, b, c) <==> Ser(R, c) == SeriesMul(R, Ser(R, a), Ser(R, b))
  {
    var x, y := Ser(R, c), SeriesMul(R, Ser(R, a), Ser(R, b));
    assert forall n: nat :: x[n] == Coef(R, c, n) && y[n] == Conv(R, Ser(R, a), Ser(R, b), n);
    if x == y {
      forall n: nat ensures Coef(R, c, n) == Conv(R, Ser(R, a), Ser(R, b), n) { assert x[n] == y[n]; }
    }
  }

  /** r' is r after subtracting c x^e b. */
  ghost predicate Eliminated<T>(R: Ring<T>, b: seq<T>, r: seq<T>, r': seq<T>, c: T, e: nat) {
    && |r| == |r'| && e + |b| <= |r|
    && forall n | 0 <= n < |r| :: r'[n] == if e <= n < e + |b| then R.sub(r[n], R.mul(c, b[n - e])) else r[n]
  }

  /** Eliminating with the coefficients of b up to its degree keeps a = q b + r. */
  lemma EliminateKeeps<T(00,!new)>(R: Ring<T>, a: seq<T>, b: seq<T>, bb: seq<T>, q: seq<T>, q': seq<T>, r: seq<T>, r': seq<T>, c: T, e: nat)
    requires IsRing(R) && Ser(R, bb) == Ser(R, b) && Divided(R, a, b, q, r)
    requires e < |q| && q[e] == R.zero && q' == q[e := c]
    requires Eliminated(R, bb, r, r', c, e)
    ensures Divided(R, a, b, q', r')
  {
    forall n: nat ensures Coef(R, r, n) == Shifted(R, r', c, e, bb, n) {
      if e <= n < e + |bb| {
        SubIs(R, r[n], R.mul(c, bb[n - e]), r'[n]);
      }
    }
    DividedSeries(R, a, b, q, r);
    DividedSeries(R, a, b, q', r');
    DivisionStep(R, Ser(R, a), bb, q, q', r, r', c, e);
  }

  lemma StartDivision<T(00,!new)>(R: Ring<T>, a: seq<T>, b: seq<T>, q: seq<T>, r: seq<T>)
    requires IsRing(R) && IsZero(R, q) && forall n: nat :: Coef(R, r, n) == Coef(R, a, n)
    ensures Divided(R, a, b, q, r)
  {
    SeriesIsRing(R);
    ZeroSeries(R, q);
    SerPad(R, r, a);
    Units(SeriesRing(R), Ser(R, b));
    Units(SeriesRing(R), Ser(R, a));
    DividedSeries(R, a, b, q, r);
  }

  /* Divisibility. */

  ghost predicate Divides<T(00,!new)>(R: Ring<T>, d: seq<T>, a: seq<T>) {
    exists h: seq<T> :: IsProduct(R, d, h, a)
  }

  lemma DividesItselfAndZero<T(00,!new)>(R: Ring<T>, d: seq<T>, z: seq<T>)
    requires IsRing(R) && Ser(R, z) == Ser(R, [])
    ensures Divides(R, d, d) && Divides(R, d, z)
  {
    var S := SeriesRing(R);
    SeriesIsRing(R);
    Units(S, Ser(R, d));
    ProductSeries(R, d, [R.one], d);
    ProductSeries(R, d, [], z);
    assert IsProduct(R, d, [R.one], d) && IsProduct(R, d, [], z);
  }

  /** A common divisor of b and r divides q b + r. */
  lemma DividesCombination<T(00,!new)>(R: Ring<T>, d: seq<T>, q: seq<T>, b: seq<T>, r: seq<T>, a: seq<T>)
    requires IsRing(R) && Divides(R, d, b) && Divides(R, d, r)
    requires Divided(R, a, b, q, r)
    ensures Divides(R, d, a)
  {
    var h :| IsProduct(R, d, h, b);
    var k :| IsProduct(R, d, k, r);
    ProductSeries(R, d, h, b);
    ProductSeries(R, d, k, r);
    DividedSeries(R, a, b, q, r);
    var S := SeriesRing(R);
    SeriesIsRing(R);
    var t := Times(R, q, h);
    SerTimes(R, q, h);
    Mul3(S, Ser(R, q), Ser(R, d), Ser(R, h));
    Distribute(S, Ser(R, d), Ser(R, t), Ser(R, k));
    SerPlus(R, t, k);
    ProductSeries(R, d, Plus(R, t, k), a);
    assert IsProduct(R, d, Plus(R, t, k), a);
  }

  lemma SerPlus<T(00,!new)>(R: Ring<T>, p: seq<T>, q: seq<T>)
    requires IsRing(R)
    ensures Ser(R, Plus(R, p, q)) == SeriesAdd(R, Ser(R, p), Ser(R, q))
  {
    forall n: nat ensures Ser(R, Plus(R, p, q))[n] == SeriesAdd(R, Ser(R, p), Ser(R, q))[n] {
      CoefPlus(R, p, q, n);
    }
  }
}

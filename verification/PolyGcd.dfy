/** The extended Euclidean algorithm for polynomials over a field. */
module PolyGcd {
  import opened Rings
  import opened PowerSeries
  import opened Polynomials
  import opened SeriesIdentities
  import opened PolyLoops
  import opened PolyDivision

  /** d = u a + v b, coefficient by coefficient. */
  ghost predicate Combines<T(00)>(R: Ring<T>, d: seq<T>, u: seq<T>, a: seq<T>, v: seq<T>, b: seq<T>) {
    forall n: nat :: Coef(R, d, n) == TwoProducts(R, u, a, v, b, n)
  }

  ghost function TwoProducts<T(00)>(R: Ring<T>, u: seq<T>, a: seq<T>, v: seq<T>, b: seq<T>, n: nat): T {
    R.add(Conv(R, Ser(R, u), Ser(R, a), n), Conv(R, Ser(R, v), Ser(R, b), n))
  }

  ghost function Combination<T(00)>(R: Ring<T>, u: seq<T>, a: seq<T>, v: seq<T>, b: seq<T>): Series<T> {
    SeriesAdd(R, SeriesMul(R, Ser(R, u), Ser(R, a)), SeriesMul(R, Ser(R, v), Ser(R, b)))
  }

  lemma CombinesSeries<T(00)>(R: Ring<T>, d: seq<T>, u: seq<T>, a: seq<T>, v: seq<T>, b: seq<T>)
    requires Combines(R, d, u, a, v, b)
    ensures Ser(R, d) == Combination(R, u, a, v, b)
  {
    var x, y := Ser(R, d), Combination(R, u, a, v, b);
    forall n: nat ensures x[n] == y[n] { assert Coef(R, d, n) == TwoProducts(R, u, a, v, b, n); }
  }

  lemma SeriesCombines<T(00)>(R: Ring<T>, d: seq<T>, u: seq<T>, a: seq<T>, v: seq<T>, b: seq<T>)
    requires Ser(R, d) == Combination(R, u, a, v, b)
    ensures Combines(R, d, u, a, v, b)
  {
    var x, y := Ser(R, d), Combination(R, u, a, v, b);
    forall n: nat ensures Coef(R, d, n) == TwoProducts(R, u, a, v, b, n) { assert x[n] == y[n]; }
  }

  /** m = m2 - q m1, coefficient by coefficient. */
  ghost predicate NextCofactor<T(00)>(R: Ring<T>, m2: seq<T>, q: seq<T>, m1: seq<T>, m: seq<T>) {
    forall n: nat :: Coef(R, m, n) == R.sub(Coef(R, m2, n), Conv(R, Ser(R, q), Ser(R, m1), n))
  }

  lemma NextCofactorSeries<T(00)>(R: Ring<T>, m2: seq<T>, q: seq<T>, m1: seq<T>, m: seq<T>)
    requires NextCofactor(R, m2, q, m1, m)
    ensures Ser(R, m) == SeriesSub(R, Ser(R, m2), SeriesMul(R, Ser(R, q), Ser(R, m1)))
  {
    forall n: nat ensures Ser(R, m)[n] == SeriesSub(R, Ser(R, m2), SeriesMul(R, Ser(R, q), Ser(R, m1)))[n] {
      assert Coef(R, m, n) == R.sub(Coef(R, m2, n), Conv(R, Ser(R, q), Ser(R, m1), n));
    }
  }

  /** The next remainder is the combination by the next cofactors. */
  lemma CombineStep<T(00,!new)>(R: Ring<T>, a: seq<T>, b: seq<T>, x: seq<T>, y: seq<T>, q: seq<T>, r: seq<T>,
                                u2: seq<T>, v2: seq<T>, u1: seq<T>, v1: seq<T>, u: seq<T>, v: seq<T>)
    requires IsRing(R) && Combines(R, x, u2, a, v2, b) && Combines(R, y, u1, a, v1, b)
    requires Divided(R, x, y, q, r) && NextCofactor(R, u2, q, u1, u) && NextCofactor(R, v2, q, v1, v)
    ensures Combines(R, r, u, a, v, b)
  {
    CombinesSeries(R, x, u2, a, v2, b);
    CombinesSeries(R, y, u1, a, v1, b);
    DividedSeries(R, x, y, q, r);
    NextCofactorSeries(R, u2, q, u1, u);
    NextCofactorSeries(R, v2, q, v1, v);
    NextCombination(R, a, b, x, y, q, r, u2, v2, u1, v1, u, v);
    SeriesCombines(R, r, u, a, v, b);
  }

  lemma NextCombination<T(00,!new)>(R: Ring<T>, a: seq<T>, b: seq<T>, x: seq<T>, y: seq<T>, q: seq<T>, r: seq<T>,
                                    u2: seq<T>, v2: seq<T>, u1: seq<T>, v1: seq<T>, u: seq<T>, v: seq<T>)
    requires IsRing(R) && Ser(R, x) == Combination(R, u2, a, v2, b) && Ser(R, y) == Combination(R, u1, a, v1, b)
    requires Ser(R, x) == SeriesAdd(R, SeriesMul(R, Ser(R, q), Ser(R, y)), Ser(R, r))
    requires Ser(R, u) == SeriesSub(R, Ser(R, u2), SeriesMul(R, Ser(R, q), Ser(R, u1)))
    requires Ser(R, v) == SeriesSub(R, Ser(R, v2), SeriesMul(R, Ser(R, q), Ser(R, v1)))
    ensures Ser(R, r) == Combination(R, u, a, v, b)
  {
    var S := TheSeriesRing(R);
    CombineCofactors(S, Ser(R, a), Ser(R, b), Ser(R, q), Ser(R, u2), Ser(R, v2), Ser(R, u1), Ser(R, v1),
                     Ser(R, x), Ser(R, y), Ser(R, r));
  }

  /** The ring of series, by its operations. */
  lemma TheSeriesRing<T(00,!new)>(R: Ring<T>) returns (S: Ring<Series<T>>)
    requires IsRing(R)
    ensures IsRing(S) && ActsOnSeries(S, R)
  {
    SeriesIsRing(R);
    S := SeriesRing(R);
  }

  lemma ConvConstant<T(00,!new)>(R: Ring<T>, c: T, b: Series<T>, n: nat)
    requires IsRing(R)
    ensures Conv(R, Ser(R, [c]), b, n) == R.mul(c, b[n])
  {
    ConvMono(R, c, 0, b, n);
    assert Mono(R, c, 0) == [c];
  }

  lemma StartCombination<T(00,!new)>(R: Ring<T>, a: seq<T>, b: seq<T>)
    requires IsRing(R)
    ensures Combines(R, a, [R.one], a, [R.zero], b) && Combines(R, b, [R.zero], a, [R.one], b)
  {
    forall n: nat
      ensures Coef(R, a, n) == TwoProducts(R, [R.one], a, [R.zero], b, n)
      ensures Coef(R, b, n) == TwoProducts(R, [R.zero], a, [R.one], b, n)
    {
      ConvConstant(R, R.one, Ser(R, a), n);
      ConvConstant(R, R.zero, Ser(R, b), n);
      ConvConstant(R, R.zero, Ser(R, a), n);
      ConvConstant(R, R.one, Ser(R, b), n);
      Units(R, Coef(R, a, n));
      Units(R, Coef(R, b, n));
    }
  }

  /* Common divisors. */

  ghost predicate DividesBoth<T(00,!new)>(R: Ring<T>, c: seq<T>, a: seq<T>, b: seq<T>) {
    Divides(R, c, a) && Divides(R, c, b)
  }

  /** Every common divisor of x and y is one of a and b. */
  ghost predicate Inherits<T(00,!new)>(R: Ring<T>, x: seq<T>, y: seq<T>, a: seq<T>, b: seq<T>) {
    forall c: seq<T> :: DividesBoth(R, c, x, y) ==> DividesBoth(R, c, a, b)
  }

  lemma InheritStep<T(00,!new)>(R: Ring<T>, x: seq<T>, y: seq<T>, q: seq<T>, r: seq<T>, a: seq<T>, b: seq<T>)
    requires IsRing(R) && Divided(R, x, y, q, r) && Inherits(R, x, y, a, b)
    ensures Inherits(R, y, r, a, b)
  {
    forall c: seq<T> | DividesBoth(R, c, y, r) ensures DividesBoth(R, c, a, b) {
      DividesCombination(R, c, q, y, r, x);
      assert DividesBoth(R, c, x, y);
    }
  }

  lemma InheritEnd<T(00,!new)>(R: Ring<T>, x: seq<T>, y: seq<T>, a: seq<T>, b: seq<T>, d: seq<T>)
    requires IsRing(R) && Inherits(R, x, y, a, b) && IsZero(R, y) && Ser(R, d) == Ser(R, x)
    ensures DividesBoth(R, d, a, b)
  {
    ZeroSeries(R, y);
    DividesItselfAndZero(R, x, y);
    assert DividesBoth(R, x, a, b);
    DividesPad(R, x, d, a);
    DividesPad(R, x, d, b);
  }

  lemma DividesPad<T(00,!new)>(R: Ring<T>, d: seq<T>, d': seq<T>, a: seq<T>)
    requires Divides(R, d, a) && Ser(R, d) == Ser(R, d')
    ensures Divides(R, d', a)
  {
    var h :| IsProduct(R, d, h, a);
    assert IsProduct(R, d', h, a);
  }

  /* The loop. */

  /** The next cofactor, computed through the product buffer res1. */
  method Cofactor<T(==,00,!new)>(R: Ring<T>, q: seq<T>, m1: seq<T>, m2: seq<T>, res1: array<T>) returns (m: seq<T>)
    requires IsRing(R) && |q| > 0 && |m1| > 0 && res1.Length == |q| + |m1| - 1
    modifies res1
    ensures |m| == if |m2| >= res1.Length then |m2| else res1.Length
    ensures NextCofactor(R, m2, q, m1, m)
  {
    Multiply(R, q, m1, res1);
    var res2 := new T[if |m2| >= res1.Length then |m2| else res1.Length](_ => R.zero);
    Subtract(R, m2, res1[..], res2);
    m := res2[..];
    Units(R, R.zero);
  }

  function Max(a: nat, b: nat): nat { if a >= b then a else b }

  /** Lengths of the cofactors m1 and m2 at a remainder of degree dx, for inputs of degrees da and db. */
  ghost predicate CofactorSizes(da: nat, db: nat, dx: nat, m1: nat, m2: nat) {
    && m1 > 0 && m2 > 0
    && m1 + dx == Max(da, db) + 1
    && m2 + dx <= Max(da, db) + (if db < da then 0 else 1)
  }

  /** Either nothing has been divided yet, or the remainders and cofactors have their expected sizes. */
  ghost predicate Sizes<T>(R: Ring<T>, a: seq<T>, b: seq<T>, x: seq<T>, y: seq<T>, m1: nat, m2: nat) {
    || (x == a && y == b && m1 == m2 == 1)
    || (&& !IsZero(R, x) && !IsZero(R, b) && |x| <= |b|
        && (IsZero(R, y) || (|y| <= |b| && Degree(R, y) < Degree(R, x)))
        && CofactorSizes(Degree(R, a), Degree(R, b), Degree(R, x), m1, m2))
  }

  lemma DegreeBelow<T>(R: Ring<T>, r: seq<T>, d: nat)
    requires forall n | 0 <= n < |r| && d <= n :: r[n] == R.zero
    ensures IsZero(R, r) || Degree(R, r) < d
  {
  }

  lemma SizesStep<T>(R: Ring<T>, a: seq<T>, b: seq<T>, x: seq<T>, y: seq<T>, m1: nat, m2: nat, r: seq<T>, m: nat)
    requires Sizes(R, a, b, x, y, m1, m2) && !IsZero(R, y)
    requires |r| == Degree(R, y) + 1 && (IsZero(R, r) || Degree(R, r) < Degree(R, y))
    requires var degQ := if Degree(R, x) < Degree(R, y) then 0 else Degree(R, x) - Degree(R, y);
      m == Max(m2, degQ + m1)
    ensures Sizes(R, a, b, y, r, m, m1)
  {
    var da, db, dx, dy := Degree(R, a), Degree(R, b), Degree(R, x), Degree(R, y);
    if x == a && y == b && m1 == m2 == 1 {
      assert CofactorSizes(da, db, dy, m, m1);
    } else {
      assert CofactorSizes(da, db, dx, m1, m2) && dy < dx;
      assert CofactorSizes(da, db, dy, m, m1);
    }
  }

  /* Degrees of the cofactors. */

  /** No coefficient beyond position k. */
  ghost predicate Within<T>(R: Ring<T>, m: seq<T>, k: int) { forall n: nat | n > k :: Coef(R, m, n) == R.zero }

  lemma ProductWithin<T(00,!new)>(R: Ring<T>, q: seq<T>, m: seq<T>, i: int, j: int, n: nat)
    requires IsRing(R) && Within(R, q, i) && Within(R, m, j) && n > i + j
    ensures Conv(R, Ser(R, q), Ser(R, m), n) == R.zero
  {
    var f := (k: nat) => Term(R, Ser(R, q), Ser(R, m), n, k);
    forall k: nat | k < n + 1 ensures f(k) == R.zero {
      Units(R, Coef(R, q, k));
      Units(R, Coef(R, m, n - k));
    }
    SumTail(R, f, 0, n + 1);
  }

  lemma CofactorWithin<T(00,!new)>(R: Ring<T>, m2: seq<T>, q: seq<T>, m1: seq<T>, m: seq<T>, i: int, j: int, k: int)
    requires IsRing(R) && NextCofactor(R, m2, q, m1, m)
    requires Within(R, q, i) && Within(R, m1, j) && i + j <= k && Within(R, m2, k)
    ensures Within(R, m, k)
  {
    forall n: nat | n > k ensures Coef(R, m, n) == R.zero {
      ProductWithin(R, q, m1, i, j, n);
      Units(R, R.zero);
      assert Coef(R, m, n) == R.sub(Coef(R, m2, n), Conv(R, Ser(R, q), Ser(R, m1), n));
    }
  }

  /** The cofactors of the remainder x and of the next one y, after the first division. */
  datatype Cofactors<T> = Cofactors(m1u: seq<T>, m1v: seq<T>, m2u: seq<T>, m2v: seq<T>)

  ghost predicate Bounded<T>(R: Ring<T>, da: nat, db: nat, dx: nat, c: Cofactors<T>) {
    && Within(R, c.m1u, db - dx) && Within(R, c.m1v, da - dx)
    && Within(R, c.m2u, db - dx - 1) && Within(R, c.m2v, if dx < da then da - dx - 1 else 0)
  }

  lemma FirstBounds<T(00,!new)>(R: Ring<T>, da: nat, db: nat, q: seq<T>, u: seq<T>, v: seq<T>)
    requires IsRing(R) && Within(R, q, da - db)
    requires NextCofactor(R, [R.one], q, [R.zero], u) && NextCofactor(R, [R.zero], q, [R.one], v)
    ensures Bounded(R, da, db, db, Cofactors(u, v, [R.zero], [R.one]))
  {
    CofactorWithin(R, [R.one], q, [R.zero], u, da - db, db - da, 0);
    CofactorWithin(R, [R.zero], q, [R.one], v, da - db, 0, da - db);
  }

  lemma NextBounds<T(00,!new)>(R: Ring<T>, da: nat, db: nat, dx: nat, dy: nat, c: Cofactors<T>, q: seq<T>, u: seq<T>, v: seq<T>)
    requires IsRing(R) && Bounded(R, da, db, dx, c) && dy < dx && dy <= da && Within(R, q, dx - dy)
    requires NextCofactor(R, c.m2u, q, c.m1u, u) && NextCofactor(R, c.m2v, q, c.m1v, v)
    ensures Bounded(R, da, db, dy, Cofactors(u, v, c.m1u, c.m1v))
  {
    CofactorWithin(R, c.m2u, q, c.m1u, u, dx - dy, db - dx, db - dy);
    CofactorWithin(R, c.m2v, q, c.m1v, v, dx - dy, da - dx, da - dy);
  }

  /** At the start, or bounded, with the next remainder no higher than a. */
  ghost predicate Degrees<T>(R: Ring<T>, a: seq<T>, b: seq<T>, x: seq<T>, y: seq<T>, c: Cofactors<T>) {
    || (x == a && y == b && c == Cofactors([R.zero], [R.one], [R.one], [R.zero]))
    || (&& (IsZero(R, y) || (Degree(R, y) < Degree(R, x) && Degree(R, y) <= Degree(R, a)))
        && Bounded(R, Degree(R, a), Degree(R, b), Degree(R, x), c))
  }

  lemma DegreesStep<T(00,!new)>(R: Ring<T>, a: seq<T>, b: seq<T>, x: seq<T>, y: seq<T>, c: Cofactors<T>, q: seq<T>, r: seq<T>, u: seq<T>, v: seq<T>)
    requires IsRing(R) && Degrees(R, a, b, x, y, c) && !IsZero(R, y)
    requires IsRemainder(R, x, y, q, r) && Within(R, q, Degree(R, x) - Degree(R, y))
    requires NextCofactor(R, c.m2u, q, c.m1u, u) && NextCofactor(R, c.m2v, q, c.m1v, v)
    ensures Degrees(R, a, b, y, r, Cofactors(u, v, c.m1u, c.m1v))
  {
    var da, db, dx, dy := Degree(R, a), Degree(R, b), Degree(R, x), Degree(R, y);
    RemainderDegree(R, x, y, q, r);
    if x == a && y == b && c == Cofactors([R.zero], [R.one], [R.one], [R.zero]) {
      FirstBounds(R, da, db, q, u, v);
    } else {
      NextBounds(R, da, db, dx, dy, c, q, u, v);
    }
  }

  /** A remainder has smaller degree than the divisor, and no larger one than the dividend. */
  lemma RemainderDegree<T(00,!new)>(R: Ring<T>, x: seq<T>, y: seq<T>, q: seq<T>, r: seq<T>)
    requires IsRing(R) && IsRemainder(R, x, y, q, r) && Within(R, q, Degree(R, x) - Degree(R, y))
    ensures IsZero(R, r) || (Degree(R, r) < Degree(R, y) && Degree(R, r) <= Degree(R, x))
  {
    var d := Degree(R, r);
    if !IsZero(R, r) {
      assert Coef(R, r, d) != R.zero;
      if Degree(R, x) < d {
        assert Coef(R, x, d) == ProductPlus(R, q, y, r, d);
        assert Within(R, y, Degree(R, y));
        ProductWithin(R, q, y, Degree(R, x) - Degree(R, y), Degree(R, y), d);
        Units(R, Coef(R, r, d));
      }
    }
  }

  /* The remainder sequence. */

  /** Each member from the third on is the remainder of the one before the last by the last, which is not zero. */
  ghost predicate Remainders<T(00,!new)>(R: Ring<T>, rs: seq<seq<T>>) {
    forall i: nat | i + 2 < |rs| :: DividesOn(R, rs, i)
  }

  ghost predicate DividesOn<T(00,!new)>(R: Ring<T>, rs: seq<seq<T>>, i: nat)
    requires i + 2 < |rs|
  {
    !IsZero(R, rs[i + 1]) && Leaves(R, rs[i], rs[i + 1], rs[i + 2])
  }

  ghost predicate Leaves<T(00,!new)>(R: Ring<T>, x: seq<T>, y: seq<T>, r: seq<T>) {
    exists q: seq<T> :: IsRemainder(R, x, y, q, r)
  }

  /** d is the last non-zero member of the remainder sequence of a and b. */
  ghost predicate LastRemainder<T(00,!new)>(R: Ring<T>, a: seq<T>, b: seq<T>, d: seq<T>) {
    exists rs: seq<seq<T>> :: Ends(R, a, b, rs, d)
  }

  ghost predicate Ends<T(00,!new)>(R: Ring<T>, a: seq<T>, b: seq<T>, rs: seq<seq<T>>, d: seq<T>) {
    && |rs| >= 2 && rs[0] == a && rs[1] == b && Remainders(R, rs) && IsZero(R, rs[|rs| - 1])
    && forall n: nat :: Coef(R, d, n) == Coef(R, rs[|rs| - 2], n)
  }

  /** The sequence so far, with x and y its last members. */
  ghost predicate Reached<T(00,!new)>(R: Ring<T>, a: seq<T>, b: seq<T>, rs: seq<seq<T>>, x: seq<T>, y: seq<T>) {
    && |rs| >= 2 && rs[0] == a && rs[1] == b && Remainders(R, rs)
    && rs[|rs| - 2] == x && rs[|rs| - 1] == y
  }

  lemma ReachedNext<T(00,!new)>(R: Ring<T>, a: seq<T>, b: seq<T>, rs: seq<seq<T>>, x: seq<T>, y: seq<T>, q: seq<T>, r: seq<T>)
    requires Reached(R, a, b, rs, x, y) && !IsZero(R, y) && IsRemainder(R, x, y, q, r)
    ensures Reached(R, a, b, rs + [r], y, r)
  {
    var next := rs + [r];
    forall i: nat | i + 2 < |next| ensures DividesOn(R, next, i) {
      if i + 2 < |rs| {
        assert DividesOn(R, rs, i);
      } else {
        assert Leaves(R, x, y, r);
      }
    }
  }

  lemma ReachedEnd<T(00,!new)>(R: Ring<T>, a: seq<T>, b: seq<T>, rs: seq<seq<T>>, x: seq<T>, y: seq<T>)
    requires Reached(R, a, b, rs, x, y) && IsZero(R, y)
    ensures LastRemainder(R, a, b, x)
  {
    assert Ends(R, a, b, rs, x);
  }

  /** One round: divide, then advance both cofactors through the same product buffer. */
  method Round<T(==,00,!new)>(F: Field<T>, x: seq<T>, y: seq<T>, m1u: seq<T>, m2u: seq<T>, m1v: seq<T>, m2v: seq<T>, ghost a: seq<T>, ghost b: seq<T>)
      returns (r: seq<T>, u: seq<T>, v: seq<T>, ghost q: seq<T>)
    requires IsField(F) && !IsZero(F.ring, y) && |m1u| == |m1v| > 0 && |m2u| == |m2v| > 0
    requires Combines(F.ring, x, m2u, a, m2v, b) && Combines(F.ring, y, m1u, a, m1v, b)
    requires Inherits(F.ring, x, y, a, b)
    ensures Combines(F.ring, r, u, a, v, b)
    ensures Inherits(F.ring, y, r, a, b)
    ensures |r| == Degree(F.ring, y) + 1 && IsRemainder(F.ring, x, y, q, r)
    ensures Within(F.ring, q, Degree(F.ring, x) - Degree(F.ring, y))
    ensures NextCofactor(F.ring, m2u, q, m1u, u) && NextCofactor(F.ring, m2v, q, m1v, v)
    ensures var degQ := if Degree(F.ring, x) < Degree(F.ring, y) then 0 else Degree(F.ring, x) - Degree(F.ring, y);
      |u| == |v| == Max(|m2u|, degQ + |m1u|)
  {
    var R := F.ring;
    var degX, degY := Degree(R, x), Degree(R, y);
    var qs := new T[(if degX < degY then 0 else degX - degY) + 1](_ => R.zero);
    var rs := new T[degY + 1](_ => R.zero);
    Divide(F, x, y, qs, rs);
    var quotient := qs[..];
    q := quotient;
    r := rs[..];
    InheritStep(R, x, y, q, r, a, b);
    var res1 := new T[|quotient| + |m1u| - 1](_ => R.zero);
    u := Cofactor(R, quotient, m1u, m2u, res1);
    v := Cofactor(R, quotient, m1v, m2v, res1);
    CombineStep(R, a, b, x, y, q, r, m2u, m2v, m1u, m1v, u, v);
  }

  method ExtendedGcd<T(==,00,!new)>(F: Field<T>, a: seq<T>, b: seq<T>) returns (d: seq<T>, u: seq<T>, v: seq<T>)
    requires IsField(F)
    ensures Combines(F.ring, d, u, a, v, b)
    ensures DividesBoth(F.ring, d, a, b)
    ensures |u| == |v| <= Max(Degree(F.ring, a), Degree(F.ring, b)) + 1
    ensures |d| <= if IsZero(F.ring, b) then |a| else |b|
    ensures IsZero(F.ring, b) ==> d == a && u == [F.ring.one] && v == [F.ring.zero]
    ensures !IsZero(F.ring, b) ==> !IsZero(F.ring, d)
    ensures !IsZero(F.ring, b) && Degree(F.ring, b) < Degree(F.ring, a) ==> |v| + Degree(F.ring, d) <= Degree(F.ring, a)
    ensures LastRemainder(F.ring, a, b, d)
    ensures !IsZero(F.ring, b) ==> SmallCofactors(F.ring, a, b, d, u, v)
  {
    var R := F.ring;
    var m1u, m2u, m1v, m2v := [R.zero], [R.one], [R.one], [R.zero];
    var x, y := a, b;
    ghost var rs := [a, b];
    StartCombination(R, a, b);
    while !IsZero(R, y)
      invariant |m1u| == |m1v| && |m2u| == |m2v|
      invariant IsZero(R, b) ==> x == a && y == b && m2u == [R.one] && m2v == [R.zero]
      invariant Sizes(R, a, b, x, y, |m1v|, |m2v|)
      invariant Combines(R, x, m2u, a, m2v, b) && Combines(R, y, m1u, a, m1v, b)
      invariant Inherits(R, x, y, a, b)
      invariant Degrees(R, a, b, x, y, Cofactors(m1u, m1v, m2u, m2v))
      invariant Reached(R, a, b, rs, x, y)
      decreases if IsZero(R, y) then 0 else Degree(R, y) + 1
    {
      ghost var q;
      var r, u', v';
      r, u', v', q := Round(F, x, y, m1u, m2u, m1v, m2v, a, b);
      DegreesStep(R, a, b, x, y, Cofactors(m1u, m1v, m2u, m2v), q, r, u', v');
      ReachedNext(R, a, b, rs, x, y, q, r);
      rs := rs + [r];
      DegreeBelow(R, r, Degree(R, y));
      SizesStep(R, a, b, x, y, |m1v|, |m2v|, r, |v'|);
      x, y := y, r;
      m2u, m1u := m1u, u';
      m2v, m1v := m1v, v';
    }
    InheritEnd(R, x, y, a, b, x);
    ReachedEnd(R, a, b, rs, x, y);
    d, u, v := x, m2u, m2v;
    if !IsZero(R, b) { SmallAtEnd(R, a, b, d, y, Cofactors(m1u, m1v, m2u, m2v)); }
  }

  lemma SmallAtEnd<T>(R: Ring<T>, a: seq<T>, b: seq<T>, x: seq<T>, y: seq<T>, c: Cofactors<T>)
    requires Degrees(R, a, b, x, y, c) && IsZero(R, y) && !IsZero(R, b)
    ensures SmallCofactors(R, a, b, x, c.m2u, c.m2v)
  {
  }

  /** Beyond d's degree, u stays below the degree of b, and v below that of a unless it is a constant. */
  ghost predicate SmallCofactors<T>(R: Ring<T>, a: seq<T>, b: seq<T>, d: seq<T>, u: seq<T>, v: seq<T>) {
    && (forall n: nat :: Coef(R, u, n) != R.zero ==> n + Degree(R, d) < Degree(R, b))
    && (forall n: nat :: Coef(R, v, n) != R.zero ==> n + Degree(R, d) < Degree(R, a) || n == 0)
  }
}

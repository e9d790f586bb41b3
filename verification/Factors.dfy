/** Degrees of factors, roots of linear factors, and maps between coefficient rings. */
module Factors {
  import opened Rings
  import opened PowerSeries
  import opened Polynomials
  import opened SeriesIdentities
  import opened PolyDivision
  import opened PolyGcd

  lemma SerBelow<T(00)>(R: Ring<T>, p: seq<T>)
    ensures Below(R, Ser(R, p), Degree(R, p) + 1)
  {
  }

  /** Degrees add up in a product over a field. */
  lemma DegreeOfProduct<T(00,!new)>(F: Field<T>, d: seq<T>, h: seq<T>, f: seq<T>)
    requires IsField(F) && IsProduct(F.ring, d, h, f) && !IsZero(F.ring, f)
    ensures !IsZero(F.ring, d) && !IsZero(F.ring, h)
    ensures Degree(F.ring, f) == Degree(F.ring, d) + Degree(F.ring, h)
  {
    var R := F.ring;
    NonZeroFactors(R, d, h, f);
    var i, j := Degree(R, d), Degree(R, h);
    SerBelow(R, d);
    SerBelow(R, h);
    NonZeroProduct(F, d[i], h[j]);
    ProductTop(R, d, h, f, i, j);
    DegreeIs(R, f, i + j);
  }

  lemma ProductTop<T(00,!new)>(R: Ring<T>, d: seq<T>, h: seq<T>, f: seq<T>, i: nat, j: nat)
    requires IsRing(R) && IsProduct(R, d, h, f) && i < |d| && j < |h|
    requires Below(R, Ser(R, d), i + 1) && Below(R, Ser(R, h), j + 1)
    ensures Coef(R, f, i + j) == R.mul(d[i], h[j])
    ensures forall n | i + j < n < |f| :: f[n] == R.zero
  {
    TopCoefficient(R, Ser(R, d), Ser(R, h), i, j);
    assert Coef(R, f, i + j) == Conv(R, Ser(R, d), Ser(R, h), i + j);
    forall n: nat | i + j < n < |f| ensures f[n] == R.zero {
      assert Coef(R, f, n) == Conv(R, Ser(R, d), Ser(R, h), n) == SeriesMul(R, Ser(R, d), Ser(R, h))[n];
    }
  }

  lemma NonZeroFactors<T(00,!new)>(R: Ring<T>, d: seq<T>, h: seq<T>, f: seq<T>)
    requires IsRing(R) && IsProduct(R, d, h, f) && !IsZero(R, f)
    ensures !IsZero(R, d) && !IsZero(R, h)
  {
    ProductSeries(R, d, h, f);
    ZeroSeries(R, d);
    ZeroSeries(R, h);
    ZeroSeries(R, f);
    SeriesIsRing(R);
    Units(SeriesRing(R), Ser(R, d));
    Units(SeriesRing(R), Ser(R, h));
  }

  /** A polynomial of degree one has a root. */
  lemma LinearRoot<T(00,!new)>(F: Field<T>, p: seq<T>) returns (r: T)
    requires IsField(F) && !IsZero(F.ring, p) && Degree(F.ring, p) == 1
    ensures Eval(F.ring, p, r) == F.ring.zero
  {
    var R := F.ring;
    var q := p[..2];
    EvalExt(R, p, q, R.zero);
    r := Neg(R, R.mul(p[0], F.inv(p[1])));
    EvalExt(R, p, q, r);
    assert q == [p[0], p[1]] && q[1..] == [p[1]] && q[1..][1..] == [];
    Units(R, r);
    Units(R, p[1]);
    assert Eval(R, q[1..], r) == p[1];
    // p0 - (p0 / p1) p1 == 0
    NegMul(R, R.mul(p[0], F.inv(p[1])), p[1]);
    Mul3(R, p[0], F.inv(p[1]), p[1]);
    Mul3(R, F.inv(p[1]), p[1], p[1]);
    Units(R, p[0]);
    SubIs(R, p[0], p[0], R.zero);
  }

  ghost predicate NoRoots<T(!new)>(R: Ring<T>, f: seq<T>) {
    forall r: T :: Eval(R, f, r) != R.zero
  }

  /** A common divisor of a cubic without roots and of a non-zero polynomial of lower degree is constant. */
  lemma CommonDivisorIsConstant<T(00,!new)>(F: Field<T>, d: seq<T>, f: seq<T>, a: seq<T>)
    requires IsField(F) && DividesBoth(F.ring, d, f, a)
    requires !IsZero(F.ring, f) && Degree(F.ring, f) == 3 && NoRoots(F.ring, f)
    requires !IsZero(F.ring, a) && Degree(F.ring, a) < 3
    ensures !IsZero(F.ring, d) && Degree(F.ring, d) == 0
  {
    var R := F.ring;
    var h :| IsProduct(R, d, h, f);
    var k :| IsProduct(R, d, k, a);
    DegreeOfProduct(F, d, h, f);
    DegreeOfProduct(F, d, k, a);
    ProductSeries(R, d, h, f);
    if Degree(R, d) == 1 {
      var r := LinearRoot(F, d);
      EvalProduct(R, d, h, f, r);
      Units(R, Eval(R, h, r));
    } else if Degree(R, d) == 2 {
      var r := LinearRoot(F, h);
      EvalProduct(R, d, h, f, r);
      Units(R, Eval(R, d, r));
    }
  }

  /* Maps between rings. */

  ghost predicate IsHom<T(!new), U>(R: Ring<T>, Q: Ring<U>, m: T -> U) {
    && m(R.zero) == Q.zero
    && (forall x: T, y: T {:trigger m(R.add(x, y))} :: m(R.add(x, y)) == Q.add(m(x), m(y)))
    && (forall x: T, y: T {:trigger m(R.mul(x, y))} :: m(R.mul(x, y)) == Q.mul(m(x), m(y)))
  }

  ghost function Mapped<T, U>(m: T -> U, p: seq<T>): seq<U> {
    seq(|p|, i requires 0 <= i < |p| => m(p[i]))
  }

  lemma {:induction false} MappedPlus<T(!new), U>(R: Ring<T>, Q: Ring<U>, m: T -> U, p: seq<T>, q: seq<T>)
    requires IsHom(R, Q, m)
    ensures Mapped(m, Plus(R, p, q)) == Plus(Q, Mapped(m, p), Mapped(m, q))
  {
    if p != [] && q != [] {
      MappedPlus(R, Q, m, p[1..], q[1..]);
      assert Mapped(m, p)[1..] == Mapped(m, p[1..]) && Mapped(m, q)[1..] == Mapped(m, q[1..]);
    }
  }

  lemma {:induction false} MappedTimes<T(!new), U>(R: Ring<T>, Q: Ring<U>, m: T -> U, p: seq<T>, q: seq<T>)
    requires IsHom(R, Q, m)
    ensures Mapped(m, Times(R, p, q)) == Times(Q, Mapped(m, p), Mapped(m, q))
  {
    if p != [] {
      var t := Times(R, p[1..], q);
      MappedTimes(R, Q, m, p[1..], q);
      assert Mapped(m, p)[1..] == Mapped(m, p[1..]);
      assert Mapped(m, Scale(R, p[0], q)) == Scale(Q, m(p[0]), Mapped(m, q));
      assert Mapped(m, [R.zero] + t) == [Q.zero] + Mapped(m, t);
      MappedPlus(R, Q, m, Scale(R, p[0], q), [R.zero] + t);
    }
  }

  /** A combination d = u a + v b evaluates, through the map, to the same combination of values. */
  lemma EvalCombination<T(00,!new), U(!new)>(R: Ring<T>, Q: Ring<U>, m: T -> U, d: seq<T>, u: seq<T>, a: seq<T>, v: seq<T>, b: seq<T>, y: U)
    requires IsRing(R) && IsRing(Q) && IsHom(R, Q, m) && Combines(R, d, u, a, v, b)
    ensures Eval(Q, Mapped(m, d), y)
         == Q.add(Q.mul(Eval(Q, Mapped(m, u), y), Eval(Q, Mapped(m, a), y)), Q.mul(Eval(Q, Mapped(m, v), y), Eval(Q, Mapped(m, b), y)))
  {
    var ua, vb := Times(R, u, a), Times(R, v, b);
    var t := Plus(R, ua, vb);
    forall n: nat ensures Coef(Q, Mapped(m, d), n) == Coef(Q, Mapped(m, t), n) {
      CoefPlus(R, ua, vb, n);
      CoefTimes(R, u, a, n);
      CoefTimes(R, v, b, n);
      assert Coef(R, d, n) == TwoProducts(R, u, a, v, b, n);
      assert Coef(Q, Mapped(m, d), n) == m(Coef(R, d, n)) && Coef(Q, Mapped(m, t), n) == m(Coef(R, t, n));
    }
    EvalExt(Q, Mapped(m, d), Mapped(m, t), y);
    MappedPlus(R, Q, m, ua, vb);
    MappedTimes(R, Q, m, u, a);
    MappedTimes(R, Q, m, v, b);
    EvalPlus(Q, Mapped(m, ua), Mapped(m, vb), y);
    EvalTimes(Q, Mapped(m, u), Mapped(m, a), y);
    EvalTimes(Q, Mapped(m, v), Mapped(m, b), y);
  }
}

/** Coefficient lists (lowest degree first): degree, evaluation, products and shifted updates, each
    tied to the series the list stands for. */
module Polynomials {
  import opened Rings
  import opened PowerSeries

  /* Degree and zero test (poly.rs). */

  predicate IsZero<T(==)>(R: Ring<T>, p: seq<T>) {
    forall i | 0 <= i < |p| :: p[i] == R.zero
  }

  /** Position of the last non-zero coefficient, 0 when there is none. */
  function Degree<T(==)>(R: Ring<T>, p: seq<T>): (d: nat)
    ensures IsZero(R, p) ==> d == 0
    ensures !IsZero(R, p) ==> d < |p| && p[d] != R.zero && forall i | d < i < |p| :: p[i] == R.zero
  {
    if p == [] then 0
    else if p[|p| - 1] != R.zero then |p| - 1
    else
      assert p == p[..|p| - 1] + [R.zero];
      Degree(R, p[..|p| - 1])
  }

  lemma DegreeIs<T>(R: Ring<T>, p: seq<T>, d: nat)
    requires d < |p| && p[d] != R.zero && forall i | d < i < |p| :: p[i] == R.zero
    ensures Degree(R, p) == d && !IsZero(R, p)
  {
  }

  lemma ZeroSeries<T(00)>(R: Ring<T>, p: seq<T>)
    ensures IsZero(R, p) <==> Ser(R, p) == Ser(R, [])
  {
    if IsZero(R, p) {
      assert forall n: nat :: Ser(R, p)[n] == Ser(R, [])[n];
    } else if Ser(R, p) == Ser(R, []) {
      forall i | 0 <= i < |p| ensures p[i] == R.zero {
        assert Ser(R, p)[i] == Ser(R, [])[i];
      }
    }
  }

  /** Cutting off or appending zero coefficients leaves the series alone. */
  lemma SerPad<T(00)>(R: Ring<T>, p: seq<T>, q: seq<T>)
    requires forall n: nat :: Coef(R, p, n) == Coef(R, q, n)
    ensures Ser(R, p) == Ser(R, q)
  {
    assert forall n: nat :: Ser(R, p)[n] == Ser(R, q)[n];
  }

  /* Monomials. */

  ghost function Mono<T>(R: Ring<T>, c: T, e: nat): seq<T> {
    seq(e, _ => R.zero) + [c]
  }

  lemma {:induction false} SumSingle<T(!new)>(R: Ring<T>, f: nat -> T, e: nat, n: nat)
    requires IsRing(R)
    requires forall i: nat | i < n && i != e :: f(i) == R.zero
    ensures Sum(R, f, n) == if e < n then f(e) else R.zero
  {
    if n > 0 {
      SumSingle(R, f, e, n - 1);
      Units(R, Sum(R, f, n - 1));
      Units(R, f(n - 1));
    }
  }

  lemma ConvMono<T(00,!new)>(R: Ring<T>, c: T, e: nat, b: Series<T>, n: nat)
    requires IsRing(R)
    ensures Conv(R, Ser(R, Mono(R, c, e)), b, n) == if n < e then R.zero else R.mul(c, b[n - e])
  {
    var f := (j: nat) => Term(R, Ser(R, Mono(R, c, e)), b, n, j);
    forall j: nat | j < n + 1 && j != e ensures f(j) == R.zero {
      Units(R, b[n - j]);
    }
    SumSingle(R, f, e, n + 1);
  }

  /** Coefficient n of p + c x^e q. */
  ghost function Shifted<T>(R: Ring<T>, p: seq<T>, c: T, e: nat, q: seq<T>, n: nat): T {
    if e <= n < e + |q| then R.add(Coef(R, p, n), R.mul(c, q[n - e])) else Coef(R, p, n)
  }

  lemma AddShifted<T(00,!new)>(R: Ring<T>, p: seq<T>, c: T, e: nat, q: seq<T>, r: seq<T>)
    requires IsRing(R)
    requires forall n: nat :: Coef(R, r, n) == Shifted(R, p, c, e, q, n)
    ensures Ser(R, r) == SeriesAdd(R, Ser(R, p), SeriesMul(R, Ser(R, Mono(R, c, e)), Ser(R, q)))
  {
    forall n: nat
      ensures Ser(R, r)[n] == SeriesAdd(R, Ser(R, p), SeriesMul(R, Ser(R, Mono(R, c, e)), Ser(R, q)))[n]
    {
      ConvMono(R, c, e, Ser(R, q), n);
      Units(R, Coef(R, p, n));
      Units(R, c);
    }
  }

  lemma SerPrefix<T(00,!new)>(R: Ring<T>, p: seq<T>, i: nat)
    requires IsRing(R) && i < |p|
    ensures Ser(R, p[..i + 1]) == SeriesAdd(R, Ser(R, p[..i]), Ser(R, Mono(R, p[i], i)))
  {
    forall n: nat
      ensures Ser(R, p[..i + 1])[n] == SeriesAdd(R, Ser(R, p[..i]), Ser(R, Mono(R, p[i], i)))[n]
    {
      Units(R, Coef(R, p, n));
      Units(R, R.zero);
    }
  }

  /* Degrees of products. */

  ghost predicate Below<T(00)>(R: Ring<T>, a: Series<T>, d: nat) {
    forall n: nat | d <= n :: a[n] == R.zero
  }

  lemma TopCoefficient<T(00,!new)>(R: Ring<T>, a: Series<T>, b: Series<T>, i: nat, j: nat)
    requires IsRing(R) && Below(R, a, i + 1) && Below(R, b, j + 1)
    ensures SeriesMul(R, a, b)[i + j] == R.mul(a[i], b[j])
    ensures Below(R, SeriesMul(R, a, b), i + j + 1)
  {
    forall n: nat | i + j <= n
      ensures Conv(R, a, b, n) == if n == i + j then R.mul(a[i], b[j]) else R.zero
    {
      var f := (k: nat) => Term(R, a, b, n, k);
      forall k: nat | k < n + 1 && (k != i || n > i + j) ensures f(k) == R.zero {
        Units(R, a[k]);
        Units(R, b[n - k]);
      }
      SumSingle(R, f, i, n + 1);
    }
  }

  /* Evaluation. */

  ghost function Eval<T>(R: Ring<T>, p: seq<T>, y: T): T {
    if p == [] then R.zero else R.add(p[0], R.mul(y, Eval(R, p[1..], y)))
  }

  lemma {:induction false} EvalIsSum<T(!new)>(R: Ring<T>, p: seq<T>, y: T)
    requires IsRing(R)
    ensures Eval(R, p, y) == Sum(R, (j: nat) => R.mul(Coef(R, p, j), Pow(R, y, j)), |p|)
  {
    if p != [] {
      var f := (j: nat) => R.mul(Coef(R, p, j), Pow(R, y, j));
      var g := (j: nat) => R.mul(Coef(R, p[1..], j), Pow(R, y, j));
      var h := (j: nat) => f(j + 1);
      EvalIsSum(R, p[1..], y);
      forall j: nat | j < |p| - 1 ensures h(j) == R.mul(y, g(j)) {
        assert Coef(R, p[1..], j) == Coef(R, p, j + 1) && Pow(R, y, j + 1) == R.mul(Pow(R, y, j), y);
        Mul3(R, Coef(R, p, j + 1), Pow(R, y, j), y);
        Mul3(R, y, g(j), y);
      }
      SumScale(R, y, g, h, |p| - 1);
      SumHead(R, f, h, |p| - 1);
      Units(R, p[0]);
      assert Coef(R, p, 0) == p[0] && Pow(R, y, 0) == R.one;
      assert f(0) == p[0];
    }
  }

  /** Evaluation depends on the series only, not on padding. */
  lemma {:induction false} EvalExt<T(!new)>(R: Ring<T>, p: seq<T>, q: seq<T>, y: T)
    requires IsRing(R)
    requires forall n: nat :: Coef(R, p, n) == Coef(R, q, n)
    ensures Eval(R, p, y) == Eval(R, q, y)
    decreases |p| + |q|
  {
    if p != [] || q != [] {
      var p1, q1 := if p == [] then [] else p[1..], if q == [] then [] else q[1..];
      assert Coef(R, p, 0) == Coef(R, q, 0);
      forall n: nat ensures Coef(R, p1, n) == Coef(R, q1, n) {
        assert Coef(R, p, n + 1) == Coef(R, q, n + 1);
      }
      EvalExt(R, p1, q1, y);
      Units(R, y);
      Units(R, R.zero);
    }
  }

  ghost function Scale<T>(R: Ring<T>, c: T, p: seq<T>): seq<T> {
    seq(|p|, i requires 0 <= i < |p| => R.mul(c, p[i]))
  }

  ghost function Plus<T>(R: Ring<T>, p: seq<T>, q: seq<T>): seq<T> {
    if p == [] then q else if q == [] then p else [R.add(p[0], q[0])] + Plus(R, p[1..], q[1..])
  }

  /** The product of two coefficient lists. */
  ghost function Times<T>(R: Ring<T>, p: seq<T>, q: seq<T>): seq<T> {
    if p == [] then [] else Plus(R, Scale(R, p[0], q), [R.zero] + Times(R, p[1..], q))
  }

  lemma {:induction false} EvalScale<T(!new)>(R: Ring<T>, c: T, p: seq<T>, y: T)
    requires IsRing(R)
    ensures Eval(R, Scale(R, c, p), y) == R.mul(c, Eval(R, p, y))
  {
    if p == [] {
      Units(R, c);
    } else {
      EvalScale(R, c, p[1..], y);
      assert Scale(R, c, p)[1..] == Scale(R, c, p[1..]);
      Distribute(R, c, p[0], R.mul(y, Eval(R, p[1..], y)));
      Mul3(R, c, y, Eval(R, p[1..], y));
    }
  }

  lemma {:induction false} EvalPlus<T(!new)>(R: Ring<T>, p: seq<T>, q: seq<T>, y: T)
    requires IsRing(R)
    ensures Eval(R, Plus(R, p, q), y) == R.add(Eval(R, p, y), Eval(R, q, y))
  {
    Units(R, Eval(R, p, y));
    Units(R, Eval(R, q, y));
    if p != [] && q != [] {
      EvalPlus(R, p[1..], q[1..], y);
      var u, v := Eval(R, p[1..], y), Eval(R, q[1..], y);
      assert Plus(R, p, q)[1..] == Plus(R, p[1..], q[1..]);
      Distribute(R, y, u, v);
      Add4(R, p[0], q[0], R.mul(y, u), R.mul(y, v));
    }
  }

  lemma {:induction false} EvalTimes<T(!new)>(R: Ring<T>, p: seq<T>, q: seq<T>, y: T)
    requires IsRing(R)
    ensures Eval(R, Times(R, p, q), y) == R.mul(Eval(R, p, y), Eval(R, q, y))
  {
    var w := Eval(R, q, y);
    if p == [] {
      Units(R, w);
    } else {
      var t, u := Times(R, p[1..], q), Eval(R, p[1..], y);
      EvalTimes(R, p[1..], q, y);
      EvalScale(R, p[0], q, y);
      EvalPlus(R, Scale(R, p[0], q), [R.zero] + t, y);
      assert ([R.zero] + t)[1..] == t;
      Units(R, R.mul(y, Eval(R, t, y)));
      Distribute(R, w, p[0], R.mul(y, u));
      Mul3(R, y, u, w);
    }
  }

  lemma {:induction false} CoefPlus<T(!new)>(R: Ring<T>, p: seq<T>, q: seq<T>, n: nat)
    requires IsRing(R)
    ensures Coef(R, Plus(R, p, q), n) == R.add(Coef(R, p, n), Coef(R, q, n))
  {
    Units(R, Coef(R, p, n));
    Units(R, Coef(R, q, n));
    if p != [] && q != [] && n > 0 {
      CoefPlus(R, p[1..], q[1..], n - 1);
    }
  }

  /** Convolution with the head of the first factor taken off. */
  lemma ConvHead<T(00,!new)>(R: Ring<T>, p: seq<T>, b: Series<T>, n: nat)
    requires IsRing(R) && p != []
    ensures Conv(R, Ser(R, p), b, n)
         == R.add(R.mul(p[0], b[n]), if n == 0 then R.zero else Conv(R, Ser(R, p[1..]), b, n - 1))
  {
    var f := (j: nat) => Term(R, Ser(R, p), b, n, j);
    var g := (j: nat) => f(j + 1);
    SumHead(R, f, g, n);
    if n > 0 {
      var h := (j: nat) => Term(R, Ser(R, p[1..]), b, n - 1, j);
      forall j: nat | j < n ensures g(j) == h(j) { assert n - (j + 1) == n - 1 - j; }
      SumExt(R, g, h, n);
    }
  }

  lemma {:induction false} CoefTimes<T(00,!new)>(R: Ring<T>, p: seq<T>, q: seq<T>, n: nat)
    requires IsRing(R)
    ensures Coef(R, Times(R, p, q), n) == Conv(R, Ser(R, p), Ser(R, q), n)
  {
    if p == [] {
      var f := (j: nat) => Term(R, Ser(R, p), Ser(R, q), n, j);
      forall j: nat | j < n + 1 ensures f(j) == R.zero { Units(R, Coef(R, q, n - j)); }
      SumTail(R, f, 0, n + 1);
    } else {
      CoefPlus(R, Scale(R, p[0], q), [R.zero] + Times(R, p[1..], q), n);
      Units(R, p[0]);
      ConvHead(R, p, Ser(R, q), n);
      if n > 0 { CoefTimes(R, p[1..], q, n - 1); }
    }
  }

  lemma SerTimes<T(00,!new)>(R: Ring<T>, p: seq<T>, q: seq<T>)
    requires IsRing(R)
    ensures Ser(R, Times(R, p, q)) == SeriesMul(R, Ser(R, p), Ser(R, q))
  {
    forall n: nat ensures Ser(R, Times(R, p, q))[n] == SeriesMul(R, Ser(R, p), Ser(R, q))[n] {
      CoefTimes(R, p, q, n);
    }
  }

  /** A list whose series is a product evaluates to the product of the values. */
  lemma EvalProduct<T(00,!new)>(R: Ring<T>, p: seq<T>, q: seq<T>, c: seq<T>, y: T)
    requires IsRing(R) && Ser(R, c) == SeriesMul(R, Ser(R, p), Ser(R, q))
    ensures Eval(R, c, y) == R.mul(Eval(R, p, y), Eval(R, q, y))
  {
    SerTimes(R, p, q);
    forall n: nat ensures Coef(R, c, n) == Coef(R, Times(R, p, q), n) {
      assert Ser(R, c)[n] == Ser(R, Times(R, p, q))[n];
    }
    EvalExt(R, c, Times(R, p, q), y);
    EvalTimes(R, p, q, y);
  }
}

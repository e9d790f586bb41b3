/** What the transform is for: it evaluates on cosets, it is inverted by the transform with the
    inverse root, and it turns products of polynomials into pointwise products. */
module NttLaws {
  import opened Bits
  import opened Rings
  import opened PowerSeries
  import opened Polynomials
  import opened Ntt

  /* Geometric sums over 2^l terms. */

  ghost function Ones<T>(R: Ring<T>, n: nat): seq<T> { seq(n, _ => R.one) }

  lemma {:induction false} GeometricSumVanishes<T(!new)>(R: Ring<T>, z: T, l: nat, t: nat)
    requires IsRing(R) && t < l && Pow(R, z, Pow2(t)) == Neg(R, R.one)
    ensures Eval(R, Ones(R, Pow2(l)), z) == R.zero
  {
    var half := Ones(R, Pow2(l - 1));
    var z2 := R.mul(z, z);
    assert Evens(Ones(R, Pow2(l))) == half && Odds(Ones(R, Pow2(l))) == half;
    EvalSplit(R, Ones(R, Pow2(l)), z);
    var g := Eval(R, half, z2);
    if t == 0 {
      PowSmall(R, z);
      NegMul(R, g, R.one);
      Units(R, g);
      SubIs(R, R.zero, g, Neg(R, g));
      Add3(R, g, Neg(R, g), g);
    } else {
      PowMul(R, z, 2, Pow2(t - 1));
      PowSmall(R, z);
      GeometricSumVanishes(R, z2, l - 1, t - 1);
      Units(R, z);
      Units(R, R.zero);
    }
  }

  lemma PowerMeetsMinusOne<T(!new)>(R: Ring<T>, w: T, l: nat, d: nat) returns (t: nat)
    requires IsRing(R) && 0 < d < Pow2(l) && Pow(R, w, Pow2(l - 1)) == Neg(R, R.one)
    ensures t < l && Pow(R, Pow(R, w, d), Pow2(t)) == Neg(R, R.one)
  {
    var o: nat;
    t, o := OddMultiple(d, l);
    var m := Neg(R, R.one);
    PowMul(R, w, d, Pow2(t));
    assert (2 * o + 1) * Pow2(l - 1) == Pow2(l - 1) * (2 * o + 1);
    PowMul(R, w, Pow2(l - 1), 2 * o + 1);
    NegMul(R, R.one, m);
    NegNeg(R, R.one);
    Units(R, m);
    OddPow(R, m, o);
  }

  lemma InverseRootHalves<T(!new)>(R: Ring<T>, w: T, v: T, h: nat)
    requires IsRing(R) && R.mul(w, v) == R.one && Pow(R, w, h) == Neg(R, R.one)
    ensures Pow(R, v, h) == Neg(R, R.one)
  {
    var x := Pow(R, v, h);
    PowOfProduct(R, w, v, h);
    PowOne(R, h);
    NegMul(R, R.one, x);
    Units(R, x);
    NegNeg(R, x);
  }

  /** w^j v^i, for v the inverse of w, is one when i = j and a root whose powers cancel otherwise. */
  lemma Orthogonal<T(!new)>(R: Ring<T>, w: T, v: T, l: nat, i: nat, j: nat)
    requires IsRing(R) && R.mul(w, v) == R.one && i < Pow2(l) && j < Pow2(l)
    requires l > 0 ==> Pow(R, w, Pow2(l - 1)) == Neg(R, R.one)
    ensures var z := R.mul(Pow(R, w, j), Pow(R, v, i));
      && (i == j ==> z == R.one)
      && (i != j ==> Eval(R, Ones(R, Pow2(l)), z) == R.zero)
  {
    var k := if i < j then i else j;
    PowOfProduct(R, w, v, k);
    PowOne(R, k);
    var a, b := Pow(R, w, k), Pow(R, v, k);
    if i < j {
      PowAdd(R, w, j - i, i);
      Mul3(R, Pow(R, w, j - i), a, b);
      Units(R, Pow(R, w, j - i));
      var t := PowerMeetsMinusOne(R, w, l, j - i);
      GeometricSumVanishes(R, Pow(R, w, j - i), l, t);
    } else if j < i {
      PowAdd(R, v, j, i - j);
      Mul3(R, a, b, Pow(R, v, i - j));
      Units(R, Pow(R, v, i - j));
      InverseRootHalves(R, w, v, Pow2(l - 1));
      var t := PowerMeetsMinusOne(R, v, l, i - j);
      GeometricSumVanishes(R, Pow(R, v, i - j), l, t);
    }
  }

  /* Inversion. */

  /** n as a ring element. */
  ghost function FromNat<T>(R: Ring<T>, n: nat): T { Sum(R, (j: nat) => R.one, n) }

  lemma EvalOnesAtOne<T(!new)>(R: Ring<T>, n: nat)
    requires IsRing(R)
    ensures Eval(R, Ones(R, n), R.one) == FromNat(R, n)
  {
    EvalIsSum(R, Ones(R, n), R.one);
    var f := (j: nat) => R.mul(Coef(R, Ones(R, n), j), Pow(R, R.one, j));
    forall j: nat | j < n ensures f(j) == R.one {
      PowOne(R, j);
      Units(R, R.one);
      assert Coef(R, Ones(R, n), j) == R.one;
    }
    SumExt(R, f, (j: nat) => R.one, n);
  }

  /** x_j w^(jk) v^(ki), the summand of the double transform. */
  ghost function Summand<T>(R: Ring<T>, x: seq<T>, w: T, v: T, i: nat, k: nat, j: nat): T {
    R.mul(R.mul(Coef(R, x, j), Pow(R, w, j * k)), Pow(R, v, k * i))
  }

  lemma SumOverJ<T(!new)>(R: Ring<T>, x: seq<T>, w: T, v: T, i: nat, k: nat)
    requires IsRing(R)
    ensures Sum(R, (j: nat) => Summand(R, x, w, v, i, k, j), |x|) == R.mul(Dft(R, x, w, k), Pow(R, v, k * i))
  {
    var c := Pow(R, v, k * i);
    var f, g := (j: nat) => R.mul(Coef(R, x, j), Pow(R, w, j * k)), (j: nat) => Summand(R, x, w, v, i, k, j);
    forall j: nat | j < |x| ensures g(j) == R.mul(c, f(j)) { Mul3(R, f(j), c, c); }
    SumScale(R, c, f, g, |x|);
    Mul3(R, c, Sum(R, f, |x|), c);
  }

  lemma SummandIs<T(!new)>(R: Ring<T>, x: seq<T>, w: T, v: T, i: nat, k: nat, j: nat)
    requires IsRing(R)
    ensures Summand(R, x, w, v, i, k, j) == R.mul(Coef(R, x, j), Pow(R, R.mul(Pow(R, w, j), Pow(R, v, i)), k))
  {
    PowOfProduct(R, Pow(R, w, j), Pow(R, v, i), k);
    PowMul(R, w, j, k);
    PowMul(R, v, i, k);
    assert i * k == k * i;
    Mul3(R, Coef(R, x, j), Pow(R, w, j * k), Pow(R, v, k * i));
  }

  lemma SumOverK<T(!new)>(R: Ring<T>, x: seq<T>, w: T, v: T, i: nat, j: nat, n: nat)
    requires IsRing(R)
    ensures Sum(R, (k: nat) => Summand(R, x, w, v, i, k, j), n)
         == R.mul(Coef(R, x, j), Eval(R, Ones(R, n), R.mul(Pow(R, w, j), Pow(R, v, i))))
  {
    var z, xj := R.mul(Pow(R, w, j), Pow(R, v, i)), Coef(R, x, j);
    EvalIsSum(R, Ones(R, n), z);
    var f := (k: nat) => R.mul(Coef(R, Ones(R, n), k), Pow(R, z, k));
    var g := (k: nat) => Summand(R, x, w, v, i, k, j);
    forall k: nat | k < n ensures g(k) == R.mul(xj, f(k)) {
      Units(R, Pow(R, z, k));
      assert Coef(R, Ones(R, n), k) == R.one;
      SummandIs(R, x, w, v, i, k, j);
    }
    SumScale(R, xj, f, g, n);
  }

  /** Transforming with root w and then with its inverse multiplies every entry by the length. */
  lemma InverseTransform<T(!new)>(R: Ring<T>, x: seq<T>, y: seq<T>, w: T, v: T, i: nat)
    requires IsRing(R) && R.mul(w, v) == R.one && IsPow2(|x|) && Halves(R, w, |x|)
    requires |y| == |x| && forall k: nat | k < |x| :: y[k] == Dft(R, x, w, k)
    requires i < |x|
    ensures Dft(R, y, v, i) == R.mul(FromNat(R, |x|), x[i])
  {
    var n, l := |x|, Log2(|x|);
    var rows := (k: nat) => Sum(R, (j: nat) => Summand(R, x, w, v, i, k, j), n);
    var cols := (j: nat) => Sum(R, (k: nat) => Summand(R, x, w, v, i, k, j), n);
    var f := (k: nat) => R.mul(Coef(R, y, k), Pow(R, v, k * i));
    forall k: nat | k < n ensures f(k) == rows(k) {
      SumOverJ(R, x, w, v, i, k);
      assert Coef(R, y, k) == Dft(R, x, w, k);
    }
    SumExt(R, f, rows, n);
    SwapSummands(R, x, w, v, i, n);
    forall j: nat | j < n && j != i ensures cols(j) == R.zero {
      SumOverK(R, x, w, v, i, j, n);
      Orthogonal(R, w, v, l, i, j);
      Units(R, Coef(R, x, j));
    }
    SumSingle(R, cols, i, n);
    SumOverK(R, x, w, v, i, i, n);
    Orthogonal(R, w, v, l, i, i);
    EvalOnesAtOne(R, n);
    Mul3(R, x[i], FromNat(R, n), x[i]);
  }

  lemma SwapSummands<T(!new)>(R: Ring<T>, x: seq<T>, w: T, v: T, i: nat, n: nat)
    requires IsRing(R)
    ensures Sum(R, (k: nat) => Sum(R, (j: nat) => Summand(R, x, w, v, i, k, j), n), n)
         == Sum(R, (j: nat) => Sum(R, (k: nat) => Summand(R, x, w, v, i, k, j), n), n)
  {
    var f := (k: nat, j: nat) => Summand(R, x, w, v, i, k, j);
    SumSwap(R, f, n, n);
    var a, a' := (k: nat) => Sum(R, (j: nat) => Summand(R, x, w, v, i, k, j), n), (k: nat) => Sum(R, (j: nat) => f(k, j), n);
    var b, b' := (j: nat) => Sum(R, (k: nat) => Summand(R, x, w, v, i, k, j), n), (j: nat) => Sum(R, (k: nat) => f(k, j), n);
    forall k: nat | k < n ensures a(k) == a'(k) && b(k) == b'(k) {
      SumExt(R, (j: nat) => Summand(R, x, w, v, i, k, j), (j: nat) => f(k, j), n);
      SumExt(R, (j: nat) => Summand(R, x, w, v, i, j, k), (j: nat) => f(j, k), n);
    }
    SumExt(R, a, a', n);
    SumExt(R, b, b', n);
  }

  /* Products. */

  /** The transform of a zero-padded product is the pointwise product of the padded transforms. */
  lemma Convolution<T(00,!new)>(R: Ring<T>, a: seq<T>, b: seq<T>, c: seq<T>, pa: seq<T>, pb: seq<T>, root: T, k: nat)
    requires IsRing(R) && Ser(R, c) == SeriesMul(R, Ser(R, a), Ser(R, b))
    requires Ser(R, pa) == Ser(R, a) && Ser(R, pb) == Ser(R, b)
    ensures Dft(R, c, root, k) == R.mul(Dft(R, pa, root, k), Dft(R, pb, root, k))
  {
    DftIsEval(R, c, root, k);
    DftIsEval(R, pa, root, k);
    DftIsEval(R, pb, root, k);
    EvalProduct(R, pa, pb, c, Pow(R, root, k));
  }

  /* Cosets. */

  /** Scaling coefficient i by s^i moves the evaluation point by the factor s. */
  lemma {:induction false} EvalScaledPowers<T(!new)>(R: Ring<T>, a: seq<T>, r: seq<T>, s: T, e: nat, y: T)
    requires IsRing(R) && |a| <= |r|
    requires forall i: nat | i < |r| :: r[i] == if i < |a| then R.mul(a[i], Pow(R, s, e + i)) else R.zero
    ensures Eval(R, r, y) == R.mul(Pow(R, s, e), Eval(R, a, R.mul(s, y)))
  {
    var p := Pow(R, s, e);
    if r == [] {
      Units(R, p);
    } else if a == [] {
      EvalScaledPowers(R, a, r[1..], s, e, y);
      Units(R, p);
      Units(R, y);
      Units(R, R.zero);
    } else {
      var u := Eval(R, a[1..], R.mul(s, y));
      EvalScaledPowers(R, a[1..], r[1..], s, e + 1, y);
      Distribute(R, p, a[0], R.mul(R.mul(s, y), u));
      Mul3(R, a[0], p, p);
      assert r[0] == R.mul(a[0], Pow(R, s, e + 0));
      Mul3(R, y, R.mul(p, s), u);
      Mul3(R, p, R.mul(s, y), u);
      Mul3(R, p, s, y);
      Mul3(R, y, R.mul(p, s), y);
    }
  }
}

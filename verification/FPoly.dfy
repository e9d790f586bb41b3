/** Polynomials over the cubic extension: division by reversed monic lists. */
module FPoly {
  import opened Bits
  import opened Rings
  import opened PowerSeries
  import opened Polynomials
  import opened SeriesIdentities
  import opened Ntt
  import opened PolyLoops
  import opened ReverseDivision
  import opened Factors
  import opened Goldilocks
  import opened Felts
  import opened FeltField
  import BPoly

  type Poly = seq<Felt>

  /** q is the Euclidean quotient of a by b: what it leaves has degree below that of b. */
  ghost predicate IsQuotient<T(00,!new)>(R: Ring<T>, a: seq<T>, b: seq<T>, q: seq<T>) {
    exists r: seq<T> :: IsRemainder(R, a, b, q, r)
  }

  /** A list that vanishes from the degree difference on cannot be the quotient. */
  lemma TooShortForQuotient<T(00,!new)>(R: Ring<T>, a: seq<T>, b: seq<T>, q: seq<T>)
    requires IsRing(R) && !IsZero(R, a) && Degree(R, b) <= Degree(R, a)
    requires IsZero(R, b) || forall k: nat | Degree(R, a) - Degree(R, b) <= k :: Coef(R, q, k) == R.zero
    ensures !IsQuotient(R, a, b, q)
  {
    var da, db := Degree(R, a), Degree(R, b);
    if IsQuotient(R, a, b, q) {
      var r :| IsRemainder(R, a, b, q, r);
      ProductTooShort(R, q, b, da);
      assert Coef(R, a, da) == ProductPlus(R, q, b, r, da);
      Units(R, R.zero);
    }
  }

  lemma ProductTooShort<T(00,!new)>(R: Ring<T>, q: seq<T>, b: seq<T>, da: nat)
    requires IsRing(R) && Degree(R, b) <= da
    requires IsZero(R, b) || forall k: nat | da - Degree(R, b) <= k :: Coef(R, q, k) == R.zero
    ensures Conv(R, Ser(R, q), Ser(R, b), da) == R.zero
  {
    var f := (j: nat) => Term(R, Ser(R, q), Ser(R, b), da, j);
    forall j: nat | j < da + 1 ensures f(j) == R.zero { TermVanishes(R, q, b, da, j); }
    SumTail(R, f, 0, da + 1);
  }

  lemma TermVanishes<T(00,!new)>(R: Ring<T>, q: seq<T>, b: seq<T>, da: nat, j: nat)
    requires IsRing(R) && Degree(R, b) <= da && j <= da
    requires IsZero(R, b) || forall k: nat | da - Degree(R, b) <= k :: Coef(R, q, k) == R.zero
    ensures Term(R, Ser(R, q), Ser(R, b), da, j) == R.zero
  {
    Units(R, Coef(R, q, j));
    Units(R, Coef(R, b, da - j));
  }

  lemma ZeroQuotient<T(00,!new)>(R: Ring<T>, a: seq<T>, b: seq<T>, q: seq<T>)
    requires IsRing(R) && IsZero(R, q) && (IsZero(R, a) || Degree(R, a) < Degree(R, b))
    ensures IsQuotient(R, a, b, q)
  {
    StartDivision(R, a, b, q, a);
    assert IsRemainder(R, a, b, q, a);
  }

  /** Leading coefficient, the entry at the degree. */
  function Leading(p: Poly): Felt
    requires p != []
  {
    p[Degree(FeltRing(), p)]
  }

  method FpScal(c: Felt, p: Poly) returns (r: Poly)
    ensures r == Scaled(FeltRing(), c, p)
  {
    FeltIsRing();
    r := [];
    if IsZero(FeltRing(), p) {
      Units(FeltRing(), c);
      r := seq(|p|, _ => FELT0);
    } else {
      for i := 0 to |p|
        invariant |r| == i && forall k | 0 <= k < i :: r[k] == FMul(c, p[k])
      {
        r := r + [FMul(c, p[i])];
      }
    }
  }

  /** x is determined by x y = z when y has an inverse. */
  lemma Quotients<T(!new)>(R: Ring<T>, x: T, y: T, z: T, i: T)
    requires IsRing(R) && R.mul(x, y) == z && R.mul(y, i) == R.one
    ensures x == R.mul(z, i)
  {
    Mul3(R, x, y, i);
    Units(R, x);
  }

  /** Multiplying by i and then by the leading coefficient gives the list back. */
  lemma Restore<T(!new)>(R: Ring<T>, h: T, i: T, p: seq<T>, k: nat)
    requires IsRing(R) && k < |p| && R.mul(h, i) == R.one
    ensures p[k] == R.mul(h, Scaled(R, i, p)[k])
  {
    Mul3(R, h, i, p[k]);
    Units(R, p[k]);
  }

  /** The scaled-back quotient is the Euclidean one. */
  lemma Rescaled<T(00,!new)>(R: Ring<T>, a: seq<T>, b: seq<T>, q: seq<T>, r: seq<T>, ah: T, ai: T, bi: T, lead: T)
    requires IsRing(R) && R.mul(ah, ai) == R.one && lead == R.mul(ah, bi)
    requires b != [] && b[|b| - 1] != R.zero
    requires Divided(R, Scaled(R, ai, a), Scaled(R, bi, b), q, r)
    requires |r| == |a| && forall n | |b| - 1 <= n < |a| :: r[n] == R.zero
    ensures IsQuotient(R, a, b, Scaled(R, lead, q))
  {
    forall k | 0 <= k < |a| ensures a[k] == R.mul(ah, Scaled(R, ai, a)[k]) { Restore(R, ah, ai, a, k); }
    var r' := Scaled(R, ah, r);
    Denormalise(R, a, Scaled(R, ai, a), b, Scaled(R, bi, b), q, r, ah, bi, Scaled(R, lead, q), r');
    DegreeIs(R, b, |b| - 1);
    Units(R, ah);
    assert IsRemainder(R, a, b, Scaled(R, lead, q), r');
  }

  /** A divisor padded with zeros gives a quotient that is too short. */
  lemma PaddedDivisor<T(00,!new)>(R: Ring<T>, a: seq<T>, b: seq<T>, q: seq<T>, lead: T)
    requires IsRing(R) && !IsZero(R, a) && 0 < |b| <= |a| && Degree(R, b) <= Degree(R, a) && b[|b| - 1] == R.zero
    requires |q| == |a| - |b| + 1 && EndsInZeros(R, q, |a| - 1 - Degree(R, a))
    ensures !IsQuotient(R, a, b, Scaled(R, lead, q))
  {
    var q' := Scaled(R, lead, q);
    if !IsZero(R, b) {
      assert Degree(R, b) < |b| - 1;
      forall k: nat | Degree(R, a) - Degree(R, b) <= k ensures Coef(R, q', k) == R.zero {
        Units(R, lead);
      }
    }
    TooShortForQuotient(R, a, b, q');
  }

  /** When the division yields the Euclidean quotient, from its intermediate values. */
  lemma DivisionOutcome<T(00,!new)>(R: Ring<T>, a: seq<T>, b: seq<T>, ah: T, ai: T, bh: T, bi: T, inverse: T, lead: T, q: seq<T>, r: seq<T>)
    requires IsRing(R) && R.one != R.zero && 0 < |b| <= |a| && Degree(R, b) <= Degree(R, a)
    requires ah == a[Degree(R, a)] && (ah == R.zero ==> lead == R.zero) && (ah != R.zero ==> R.mul(ah, ai) == R.one)
    requires bh == b[Degree(R, b)] && (bh != R.zero ==> R.mul(bh, bi) == R.one && R.mul(lead, bh) == ah && inverse == R.one)
    requires |q| == |a| - |b| + 1 && |r| == |a| && EndsInZeros(R, q, |a| - 1 - Degree(R, a))
    requires Monic(R, Scaled(R, ai, a), Scaled(R, bi, b), inverse, |q|) ==>
      && Divided(R, Scaled(R, ai, a), Scaled(R, bi, b), q, r)
      && forall n | |b| - 1 <= n < |a| :: r[n] == R.zero
    ensures IsQuotient(R, a, b, Scaled(R, lead, q)) <==> IsZero(R, a) || b[|b| - 1] != R.zero
  {
    if IsZero(R, a) {
      forall k | 0 <= k < |q| ensures Scaled(R, lead, q)[k] == R.zero { Units(R, q[k]); }
      ZeroQuotient(R, a, b, Scaled(R, lead, q));
    } else if b[|b| - 1] == R.zero {
      PaddedDivisor(R, a, b, q, lead);
    } else {
      DegreeIs(R, b, |b| - 1);
      Mul3(R, bh, bi, bh);
      Quotients(R, lead, bh, ah, bi);
      assert Scaled(R, bi, b)[|b| - 1] == R.one;
      Rescaled(R, a, b, q, r, ah, ai, bi, lead);
    }
  }

  lemma EndsAfterDegree<T(!new)>(R: Ring<T>, a: seq<T>, c: T)
    requires IsRing(R) && a != []
    ensures EndsInZeros(R, Scaled(R, c, a), |a| - 1 - Degree(R, a))
  {
    Units(R, c);
  }

  lemma InverseOfOne<T(!new)>(R: Ring<T>, i: T)
    requires IsRing(R) && R.mul(R.one, i) == R.one
    ensures i == R.one
  {
    Units(R, i);
  }

  /** The leading coefficient of the normalised divisor is one. */
  lemma LeadingOfScaled<T(!new)>(R: Ring<T>, b: seq<T>, bi: T)
    requires IsRing(R) && R.one != R.zero && b != [] && R.mul(b[Degree(R, b)], bi) == R.one
    ensures var s := Scaled(R, bi, b); s[Degree(R, s)] == R.one
  {
    var d, s := Degree(R, b), Scaled(R, bi, b);
    Units(R, bi);
    Mul3(R, b[d], bi, bi);
    assert s[d] == R.one;
    DegreeIs(R, s, d);
  }

  /** Inverses of the leading coefficients, as the division uses them. */
  ghost predicate Inverted<T>(R: Ring<T>, a: seq<T>, b: seq<T>, ai: T, bi: T, inverse: T, lead: T)
    requires a != [] && b != []
  {
    var ah, bh := a[Degree(R, a)], b[Degree(R, b)];
    && (ah == R.zero ==> lead == R.zero) && (ah != R.zero ==> R.mul(ah, ai) == R.one)
    && (bh != R.zero ==> R.mul(bh, bi) == R.one && R.mul(lead, bh) == ah && inverse == R.one)
  }

  /** The loop and the scaling back, for a dividend of degree at least that of the divisor. */
  method LoopQuotient<T(00,!new)>(R: Ring<T>, a: seq<T>, b: seq<T>, ai: T, bi: T, inverse: T, lead: T, aMonic: seq<T>, bMonic: seq<T>) returns (q: seq<T>)
    requires IsRing(R) && R.one != R.zero && 0 < |b| <= |a| && Degree(R, b) <= Degree(R, a)
    requires Inverted(R, a, b, ai, bi, inverse, lead)
    requires aMonic == Scaled(R, ai, a) && bMonic == Scaled(R, bi, b)
    ensures |q| == |a| - |b| + 1
    ensures IsQuotient(R, a, b, Scaled(R, lead, q)) <==> IsZero(R, a) || b[|b| - 1] != R.zero
  {
    EndsAfterDegree(R, a, ai);
    ghost var t, r := |a| - 1 - Degree(R, a), [];
    q, r := DivideReversed(R, aMonic, bMonic, inverse, |a| - |b| + 1, t);
    DivisionOutcome(R, a, b, a[Degree(R, a)], ai, b[Degree(R, b)], bi, inverse, lead, q, r);
  }

  /** The inverses and the normalised lists. */
  method Normalise(a: Poly, b: Poly) returns (aInv: Felt, bInv: Felt, inverse: Felt, lead: Felt, aMonic: Poly, bMonic: Poly)
    requires a != [] && b != []
    ensures Inverted(FeltRing(), a, b, aInv, bInv, inverse, lead)
    ensures aMonic == Scaled(FeltRing(), aInv, a) && bMonic == Scaled(FeltRing(), bInv, b)
  {
    FeltIsRing();
    var aHead, bHead := Leading(a), Leading(b);
    lead := FDiv(aHead, bHead);
    aInv := FInv(aHead);
    bInv := FInv(bHead);
    aMonic := FpScal(aInv, a);
    bMonic := FpScal(bInv, b);
    inverse := FInv(Leading(bMonic));
    if bHead != FELT0 {
      LeadingOfScaled(FeltRing(), b, bInv);
      InverseOfOne(FeltRing(), inverse);
    }
  }

  method FpDiv(a: Poly, b: Poly) returns (res: Poly)
    requires a != [] && b != []
    requires Degree(FeltRing(), a) < Degree(FeltRing(), b) || |b| <= |a|
    ensures |res| == if |a| < |b| then 1 else |a| - |b| + 1
    ensures IsQuotient(FeltRing(), a, b, res)
       <==> Degree(FeltRing(), a) < Degree(FeltRing(), b) || IsZero(FeltRing(), a) || b[|b| - 1] != FELT0
  {
    FeltIsRing();
    var aInv, bInv, inverse, lead, aMonic, bMonic := Normalise(a, b);
    if Degree(FeltRing(), a) < Degree(FeltRing(), b) {
      res := seq(if |a| < |b| then 1 else |a| - |b| + 1, _ => FELT0);
      ZeroQuotient(FeltRing(), a, b, res);
      return;
    }
    var q := LoopQuotient(FeltRing(), a, b, aInv, bInv, inverse, lead, aMonic, bMonic);
    res := FpScal(lead, q);
  }

  /** Dividing x by a one-coefficient-longer spelling of 1 misses the quotient. */
  method PaddedDivisorExample() returns (res: Poly)
    ensures !IsQuotient(FeltRing(), [FELT0, FELT1], [FELT1, FELT0], res)
  {
    var a, b := [FELT0, FELT1], [FELT1, FELT0];
    assert a[1] != FELT0 && b[0] != FELT0;
    res := FpDiv(a, b);
  }

  /* Transform, product and evaluation. */

  method FpNtt(fp: Poly, root: Felt) returns (res: Poly)
    requires IsPow2(|fp|) && |fp| < 0x1_0000_0000 && Halves(FeltRing(), root, |fp|)
    ensures |res| == |fp| && forall k: nat | k < |fp| :: res[k] == Dft(FeltRing(), fp, root, k)
  {
    FeltIsRing();
    res := Transform(FeltRing(), fp, root);
  }

  method FpCoseword(fp: Poly, offset: Felt, order: nat, root: Felt) returns (values: Poly)
    requires |fp| <= order < 0x1_0000_0000 && IsPow2(order) && Halves(FeltRing(), root, order)
    ensures |values| == order
    ensures forall k: nat | k < order :: values[k] == Eval(FeltRing(), fp, FMul(offset, Pow(FeltRing(), root, k)))
  {
    FeltIsRing();
    values := Coseword(FeltRing(), fp, offset, order, root);
  }

  lemma {:induction false} MappedPower<T(!new), U>(R: Ring<T>, Q: Ring<U>, m: T -> U, x: T, n: nat)
    requires IsHom(R, Q, m) && m(R.one) == Q.one
    ensures m(Pow(R, x, n)) == Pow(Q, m(x), n)
  {
    if n > 0 { MappedPower(R, Q, m, x, n - 1); }
  }

  /** The lifted table root is usable for transforms over the extension. */
  lemma FeltOrderedRoot(order: nat)
    requires order > 0
    ensures var r := BPoly.OrderedRoot(order); r.Some? ==> Halves(FeltRing(), Lift(r.value), order)
  {
    var r := BPoly.OrderedRoot(order);
    BPoly.OrderedRootOrder(order);
    if r.Some? && order > 1 {
      LiftIsHom();
      MappedPower(BeltRing(), FeltRing(), Lift, r.value, order / 2);
    }
  }

  method FPow(term: Felt, exponent: nat) returns (c: Felt)
    requires exponent < 0x1_0000_0000_0000_0000
    ensures c == Pow(FeltRing(), term, exponent)
  {
    FeltIsRing();
    c := Power(FeltRing(), term, exponent);
  }
}

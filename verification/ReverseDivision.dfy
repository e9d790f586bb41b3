/** Long division on reversed monic polynomials, the form the extension field uses. */
module ReverseDivision {
  import opened Sequences
  import opened Rings
  import opened PowerSeries
  import opened Polynomials
  import opened SeriesIdentities
  import opened PolyGcd

  /** Subtracts p from the entries from i on, as far as both reach. */
  method SubtractFrom<T>(R: Ring<T>, rem: array<T>, i: nat, p: seq<T>)
    requires i <= rem.Length
    modifies rem
    ensures forall k | 0 <= k < rem.Length ::
      rem[k] == if i <= k < i + |p| then R.sub(old(rem[k]), p[k - i]) else old(rem[k])
  {
    var n := if |p| <= rem.Length - i then |p| else rem.Length - i;
    for l := 0 to n
      invariant forall k | 0 <= k < rem.Length ::
        rem[k] == if i <= k < i + l then R.sub(old(rem[k]), p[k - i]) else old(rem[k])
    {
      rem[i + l] := R.sub(rem[i + l], p[l]);
    }
  }

  function Scaled<T>(R: Ring<T>, c: T, p: seq<T>): (r: seq<T>)
    ensures |r| == |p| && forall i | 0 <= i < |p| :: r[i] == R.mul(c, p[i])
  {
    seq(|p|, i requires 0 <= i < |p| => R.mul(c, p[i]))
  }

  /** The quotient found so far: entry j of res counts from the top. */
  ghost function Found<T>(R: Ring<T>, res: seq<T>, i: nat): seq<T>
    requires i <= |res|
  {
    seq(|res|, k requires 0 <= k < |res| => if |res| - 1 - k < i then res[|res| - 1 - k] else R.zero)
  }

  lemma ReversedStep<T(00,!new)>(R: Ring<T>, a: seq<T>, b: seq<T>, res: seq<T>, res': seq<T>, i: nat, rem: seq<T>, rem': seq<T>, x: T)
    requires IsRing(R) && |b| > 0 && |rem| == |rem'| == |a| && |res| == |res'| == |a| - |b| + 1 > i
    requires Divided(R, a, b, Found(R, res, i), Reverse(rem))
    requires res' == res[i := x]
    requires forall k | 0 <= k < |rem| ::
      rem'[k] == if i <= k < i + |b| then R.sub(rem[k], R.mul(x, Reverse(b)[k - i])) else rem[k]
    ensures Divided(R, a, b, Found(R, res', i + 1), Reverse(rem'))
  {
    var e := |res| - 1 - i;
    assert Found(R, res', i + 1) == Found(R, res, i)[e := x];
    forall n | 0 <= n < |a|
      ensures Reverse(rem')[n] == if e <= n < e + |b| then R.sub(Reverse(rem)[n], R.mul(x, b[n - e])) else Reverse(rem)[n]
    {
      var k := |a| - 1 - n;
      if i <= k < i + |b| { assert Reverse(b)[k - i] == b[n - e]; }
    }
    EliminateKeeps(R, a, b, b, Found(R, res, i), Found(R, res', i + 1), Reverse(rem), Reverse(rem'), x, e);
  }

  /** Entry i of the quotient is x, and x times the divisor is subtracted from position i on. */
  ghost predicate RoundDone<T>(R: Ring<T>, bRev: seq<T>, x: T, rem: seq<T>, rem': seq<T>, res: seq<T>, res': seq<T>, i: nat) {
    && i < |rem| == |rem'| && i < |res| && res' == res[i := x]
    && forall k | 0 <= k < |rem| :: rem'[k] == if i <= k < i + |bRev| then R.sub(rem[k], R.mul(x, bRev[k - i])) else rem[k]
  }

  /** One round: the next quotient entry, and the remainder after it. */
  method Round<T>(R: Ring<T>, bRev: seq<T>, inverse: T, rem: array<T>, res: array<T>, i: nat)
    requires rem != res && i < rem.Length && i < res.Length
    modifies rem, res
    ensures RoundDone(R, bRev, R.mul(old(rem[i]), inverse), old(rem[..]), rem[..], old(res[..]), res[..], i)
  {
    ghost var rem0 := rem[..];
    var x := R.mul(rem[i], inverse);
    res[i] := x;
    SubtractFrom(R, rem, i, Scaled(R, x, bRev));
    assert forall k | 0 <= k < |rem0| ::
      rem[..][k] == if i <= k < i + |bRev| then R.sub(rem0[k], R.mul(x, bRev[k - i])) else rem0[k];
  }

  /** The last t coefficients of p vanish. */
  ghost predicate EndsInZeros<T>(R: Ring<T>, p: seq<T>, t: nat) {
    forall k | 0 <= k < |p| && |p| - t <= k :: p[k] == R.zero
  }

  /** While the reversed dividend starts with zeros, so does the quotient, and nothing changes. */
  ghost predicate Idle<T>(R: Ring<T>, aRev: seq<T>, rem: seq<T>, res: seq<T>, i: nat, t: nat) {
    && (i <= t ==> rem == aRev)
    && forall j | 0 <= j < i && j < t && j < |res| :: res[j] == R.zero
  }

  lemma IdleStep<T(!new)>(R: Ring<T>, aRev: seq<T>, bRev: seq<T>, inverse: T, rem: seq<T>, rem': seq<T>, res: seq<T>, res': seq<T>, i: nat, t: nat)
    requires IsRing(R) && i < |rem| == |rem'| == |aRev| && i < |res| == |res'|
    requires Idle(R, aRev, rem, res, i, t) && forall k | 0 <= k < |aRev| && k < t :: aRev[k] == R.zero
    requires res' == res[i := R.mul(rem[i], inverse)]
    requires forall k | 0 <= k < |rem| ::
      rem'[k] == if i <= k < i + |bRev| then R.sub(rem[k], R.mul(R.mul(rem[i], inverse), bRev[k - i])) else rem[k]
    ensures Idle(R, aRev, rem', res', i + 1, t)
  {
    if i < t {
      Units(R, inverse);
      forall k | 0 <= k < |rem| ensures rem'[k] == rem[k] {
        if i <= k < i + |bRev| { Units(R, bRev[k - i]); }
        Units(R, rem[k]);
      }
    }
  }

  ghost predicate MonicSoFar<T(00)>(R: Ring<T>, a: seq<T>, b: seq<T>, rem: seq<T>, res: seq<T>, i: nat) {
    && i <= |res| && i <= |rem|
    && Divided(R, a, b, Found(R, res, i), Reverse(rem))
    && forall k | 0 <= k < i :: rem[k] == R.zero
  }

  lemma MonicStep<T(00,!new)>(R: Ring<T>, a: seq<T>, b: seq<T>, rem: seq<T>, rem': seq<T>, res: seq<T>, res': seq<T>, i: nat)
    requires IsRing(R) && 0 < |b| && b[|b| - 1] == R.one
    requires |rem| == |rem'| == |a| && |res| == |res'| == |a| - |b| + 1 > i && MonicSoFar(R, a, b, rem, res, i)
    requires res' == res[i := R.mul(rem[i], R.one)]
    requires forall k | 0 <= k < |rem| ::
      rem'[k] == if i <= k < i + |b| then R.sub(rem[k], R.mul(R.mul(rem[i], R.one), Reverse(b)[k - i])) else rem[k]
    ensures MonicSoFar(R, a, b, rem', res', i + 1)
  {
    Units(R, rem[i]);
    ReversedStep(R, a, b, res, res', i, rem, rem', rem[i]);
  }

  /** The divisor is monic, of full length, and the quotient has room for exactly its coefficients. */
  ghost predicate Monic<T>(R: Ring<T>, a: seq<T>, b: seq<T>, inverse: T, len: nat) {
    0 < |b| <= |a| && len == |a| - |b| + 1 && b[|b| - 1] == inverse == R.one
  }

  ghost predicate Progress<T(00)>(R: Ring<T>, a: seq<T>, b: seq<T>, inverse: T, t: nat, rem: seq<T>, res: seq<T>, i: nat) {
    && |rem| == |a|
    && Idle(R, Reverse(a), rem, res, i, t)
    && (Monic(R, a, b, inverse, |res|) ==> MonicSoFar(R, a, b, rem, res, i))
  }

  lemma ProgressStart<T(00,!new)>(R: Ring<T>, a: seq<T>, b: seq<T>, inverse: T, t: nat, rem: seq<T>, res: seq<T>)
    requires IsRing(R) && rem == Reverse(a)
    ensures Progress(R, a, b, inverse, t, rem, res, 0)
  {
    assert Reverse(rem) == a;
    if Monic(R, a, b, inverse, |res|) { StartDivision(R, a, b, Found(R, res, 0), a); }
  }

  lemma ProgressStep<T(00,!new)>(R: Ring<T>, a: seq<T>, b: seq<T>, inverse: T, t: nat, rem: seq<T>, rem': seq<T>, res: seq<T>, res': seq<T>, i: nat)
    requires IsRing(R) && EndsInZeros(R, a, t) && Progress(R, a, b, inverse, t, rem, res, i)
    requires i < |rem| && RoundDone(R, Reverse(b), R.mul(rem[i], inverse), rem, rem', res, res', i)
    ensures Progress(R, a, b, inverse, t, rem', res', i + 1)
  {
    IdleStep(R, Reverse(a), Reverse(b), inverse, rem, rem', res, res', i, t);
    if Monic(R, a, b, inverse, |res|) { MonicStep(R, a, b, rem, rem', res, res', i); }
  }

  lemma ProgressEnd<T(00,!new)>(R: Ring<T>, a: seq<T>, b: seq<T>, inverse: T, t: nat, rem: seq<T>, res: seq<T>)
    requires Progress(R, a, b, inverse, t, rem, res, |res|)
    ensures EndsInZeros(R, Reverse(res), t)
    ensures Monic(R, a, b, inverse, |res|) ==>
      && Divided(R, a, b, Reverse(res), Reverse(rem))
      && forall n | |b| - 1 <= n < |a| :: Reverse(rem)[n] == R.zero
  {
    assert Reverse(res) == Found(R, res, |res|);
  }

  method Rounds<T(00,!new)>(R: Ring<T>, bRev: seq<T>, inverse: T, rem: array<T>, res: array<T>, ghost a: seq<T>, ghost b: seq<T>, ghost t: nat)
    requires IsRing(R) && rem != res && res.Length <= rem.Length == |a| && bRev == Reverse(b) && EndsInZeros(R, a, t)
    requires Progress(R, a, b, inverse, t, rem[..], res[..], 0)
    modifies rem, res
    ensures Progress(R, a, b, inverse, t, rem[..], res[..], res.Length)
  {
    for i := 0 to res.Length
      invariant Progress(R, a, b, inverse, t, rem[..], res[..], i)
    {
      ghost var res0, rem0 := res[..], rem[..];
      Round(R, bRev, inverse, rem, res, i);
      ProgressStep(R, a, b, inverse, t, rem0, rem[..], res0, res[..], i);
    }
  }

  /** The division loop on reversed lists; quotient and remainder come back in ordinary order. For a
      monic divisor of full length they are the Euclidean ones. Zeros at the end of the dividend are
      zeros at the end of the quotient, whatever the divisor. */
  method DivideReversed<T(00,!new)>(R: Ring<T>, a: seq<T>, b: seq<T>, inverse: T, len: nat, ghost t: nat) returns (q: seq<T>, ghost r: seq<T>)
    requires IsRing(R) && len <= |a| && EndsInZeros(R, a, t)
    ensures |q| == len && |r| == |a| && EndsInZeros(R, q, t)
    ensures Monic(R, a, b, inverse, len) ==> Divided(R, a, b, q, r) && forall n | |b| - 1 <= n < |a| :: r[n] == R.zero
  {
    var bRev, aRev := Reverse(b), Reverse(a);
    var rem := new T[|a|](k requires 0 <= k < |a| => aRev[k]);
    var res := new T[len](_ => R.zero);
    assert rem[..] == aRev;
    ProgressStart(R, a, b, inverse, t, rem[..], res[..]);
    Rounds(R, bRev, inverse, rem, res, a, b, t);
    ProgressEnd(R, a, b, inverse, t, rem[..], res[..]);
    q := Reverse(res[..]);
    r := Reverse(rem[..]);
  }

  /* Undoing the normalisation. */

  /** From aM = qM bM + rM, the division of ah aM by b, where bM = bi b. */
  lemma Rescale<T(!new)>(S: Ring<T>, am: T, bm: T, qm: T, rm: T, ah: T, b: T, bi: T)
    requires IsRing(S) && am == S.add(S.mul(qm, bm), rm) && bm == S.mul(bi, b)
    ensures S.mul(ah, am) == S.add(S.mul(S.mul(S.mul(ah, bi), qm), b), S.mul(ah, rm))
  {
    Distribute(S, ah, S.mul(qm, bm), rm);
    Mul3(S, qm, bi, b);
    Mul3(S, ah, S.mul(qm, bi), b);
    Mul3(S, qm, bi, bi);
    Mul3(S, ah, bi, qm);
  }

  lemma SerScaled<T(00,!new)>(R: Ring<T>, c: T, p: seq<T>, q: seq<T>)
    requires IsRing(R) && |q| == |p| && forall i | 0 <= i < |p| :: q[i] == R.mul(c, p[i])
    ensures Ser(R, q) == SeriesMul(R, Ser(R, [c]), Ser(R, p))
  {
    forall n: nat ensures Ser(R, q)[n] == SeriesMul(R, Ser(R, [c]), Ser(R, p))[n] {
      ConvConstant(R, c, Ser(R, p), n);
      Units(R, c);
    }
  }

  lemma SerConstants<T(00,!new)>(R: Ring<T>, c: T, d: T)
    requires IsRing(R)
    ensures Ser(R, [R.mul(c, d)]) == SeriesMul(R, Ser(R, [c]), Ser(R, [d]))
  {
    SerScaled(R, c, [d], [R.mul(c, d)]);
  }

  lemma DenormalisedSeries<T(00,!new)>(R: Ring<T>, aM: seq<T>, b: seq<T>, bM: seq<T>, qM: seq<T>, rM: seq<T>, ah: T, bi: T, a: seq<T>, q: seq<T>, r: seq<T>)
    requires IsRing(R) && Divided(R, aM, bM, qM, rM) && Ser(R, bM) == SeriesMul(R, Ser(R, [bi]), Ser(R, b))
    requires Ser(R, a) == SeriesMul(R, Ser(R, [ah]), Ser(R, aM)) && Ser(R, r) == SeriesMul(R, Ser(R, [ah]), Ser(R, rM))
    requires Ser(R, q) == SeriesMul(R, SeriesMul(R, Ser(R, [ah]), Ser(R, [bi])), Ser(R, qM))
    ensures Divided(R, a, b, q, r)
  {
    DividedSeries(R, aM, bM, qM, rM);
    DividedSeries(R, a, b, q, r);
    SeriesIsRing(R);
    Rescale(SeriesRing(R), Ser(R, aM), Ser(R, bM), Ser(R, qM), Ser(R, rM), Ser(R, [ah]), Ser(R, b), Ser(R, [bi]));
  }

  /** Scaling a monic division back by the leading coefficients. */
  lemma Denormalise<T(00,!new)>(R: Ring<T>, a: seq<T>, aM: seq<T>, b: seq<T>, bM: seq<T>, qM: seq<T>, rM: seq<T>, ah: T, bi: T, q: seq<T>, r: seq<T>)
    requires IsRing(R) && Divided(R, aM, bM, qM, rM)
    requires |a| == |aM| && forall i | 0 <= i < |a| :: a[i] == R.mul(ah, aM[i])
    requires |b| == |bM| && forall i | 0 <= i < |b| :: bM[i] == R.mul(bi, b[i])
    requires |q| == |qM| && forall i | 0 <= i < |q| :: q[i] == R.mul(R.mul(ah, bi), qM[i])
    requires |r| == |rM| && forall i | 0 <= i < |r| :: r[i] == R.mul(ah, rM[i])
    ensures Divided(R, a, b, q, r)
  {
    SerScaled(R, ah, aM, a);
    SerScaled(R, bi, b, bM);
    SerScaled(R, R.mul(ah, bi), qM, q);
    SerScaled(R, ah, rM, r);
    SerConstants(R, ah, bi);
    DenormalisedSeries(R, aM, b, bM, qM, rM, ah, bi, a, q, r);
  }
}

/** The coefficient loops that both polynomial files run, over any commutative ring. */
module PolyLoops {
  import opened Bits
  import opened Rings
  import opened PowerSeries
  import opened Polynomials
  import opened SeriesIdentities
  import opened Ntt
  import opened NttLaws

  /** Adds c x^i b into res. */
  method AddRow<T>(R: Ring<T>, c: T, i: nat, b: seq<T>, res: array<T>)
    requires i + |b| <= res.Length
    modifies res
    ensures forall n: nat | n < res.Length ::
      res[n] == if i <= n < i + |b| then R.add(old(res[n]), R.mul(c, b[n - i])) else old(res[n])
  {
    for j := 0 to |b|
      invariant forall n: nat | n < res.Length ::
        res[n] == if i <= n < i + j then R.add(old(res[n]), R.mul(c, b[n - i])) else old(res[n])
    {
      res[i + j] := R.add(res[i + j], R.mul(c, b[j]));
    }
  }

  /** Adds the product of a and b into res. */
  method MultiplyInto<T(==,00,!new)>(R: Ring<T>, a: seq<T>, b: seq<T>, res: array<T>)
    requires IsRing(R)
    requires forall i | 0 <= i < |a| && a[i] != R.zero :: i + |b| <= res.Length
    modifies res
    ensures Divided(R, res[..], b, a, old(res[..]))
  {
    ghost var start := res[..];
    EmptyProduct(R, start, a, b);
    for i := 0 to |a|
      invariant Divided(R, res[..], b, a[..i], start)
    {
      ghost var before := res[..];
      if a[i] != R.zero {
        AddRow(R, a[i], i, b, res);
      }
      RowDone(R, start, a, b, i, before, res[..]);
    }
    assert a[..|a|] == a;
  }

  lemma EmptyProduct<T(00,!new)>(R: Ring<T>, start: seq<T>, a: seq<T>, b: seq<T>)
    requires IsRing(R)
    ensures Divided(R, start, b, a[..0], start)
  {
    StartDivision(R, start, b, a[..0], start);
  }

  lemma RowDone<T(00,!new)>(R: Ring<T>, start: seq<T>, a: seq<T>, b: seq<T>, i: nat, before: seq<T>, after: seq<T>)
    requires IsRing(R) && i < |a| && |before| == |after|
    requires Divided(R, before, b, a[..i], start)
    requires a[i] != R.zero ==> i + |b| <= |before|
    requires a[i] != R.zero ==> forall n: nat | n < |after| ::
      after[n] == if i <= n < i + |b| then R.add(before[n], R.mul(a[i], b[n - i])) else before[n]
    requires a[i] == R.zero ==> after == before
    ensures Divided(R, after, b, a[..i + 1], start)
  {
    forall n: nat ensures Coef(R, after, n) == Shifted(R, before, a[i], i, b, n) {
      if a[i] == R.zero && i <= n < i + |b| {
        Units(R, b[n - i]);
        Units(R, Coef(R, before, n));
      }
    }
    AddShifted(R, before, a[i], i, b, after);
    SerPrefix(R, a, i);
    DividedSeries(R, before, b, a[..i], start);
    DividedSeries(R, after, b, a[..i + 1], start);
    SeriesIsRing(R);
    MoveRow(SeriesRing(R), Ser(R, a[..i]), Ser(R, Mono(R, a[i], i)), Ser(R, b), Ser(R, start));
  }

  /** (p b + s) + m b == (p + m) b + s */
  lemma MoveRow<T(!new)>(S: Ring<T>, p: T, m: T, b: T, s: T)
    requires IsRing(S)
    ensures S.add(S.add(S.mul(p, b), s), S.mul(m, b)) == S.add(S.mul(S.add(p, m), b), s)
  {
    Distribute(S, b, p, m);
    Add3(S, S.mul(p, b), s, S.mul(m, b));
  }

  method Multiply<T(==,00,!new)>(R: Ring<T>, a: seq<T>, b: seq<T>, res: array<T>)
    requires IsRing(R)
    requires IsZero(R, a) || IsZero(R, b) || |a| + |b| <= res.Length + 1
    modifies res
    ensures IsProduct(R, a, b, res[..])
  {
    Fill(R, res);
    ghost var start := res[..];
    if IsZero(R, a) || IsZero(R, b) {
      ZeroProduct(R, a, b, res[..]);
      return;
    }
    MultiplyInto(R, a, b, res);
    FromZero(R, a, b, start, res[..]);
  }

  lemma ZeroProduct<T(00,!new)>(R: Ring<T>, a: seq<T>, b: seq<T>, z: seq<T>)
    requires IsRing(R) && IsZero(R, z) && (IsZero(R, a) || IsZero(R, b))
    ensures IsProduct(R, a, b, z)
  {
    SeriesIsRing(R);
    ZeroSeries(R, z);
    ZeroSeries(R, a);
    ZeroSeries(R, b);
    Units(SeriesRing(R), Ser(R, a));
    Units(SeriesRing(R), Ser(R, b));
    ProductSeries(R, a, b, z);
  }

  lemma FromZero<T(00,!new)>(R: Ring<T>, a: seq<T>, b: seq<T>, start: seq<T>, res: seq<T>)
    requires IsRing(R) && IsZero(R, start)
    requires Divided(R, res, b, a, start)
    ensures IsProduct(R, a, b, res)
  {
    forall n: nat ensures Coef(R, res, n) == Conv(R, Ser(R, a), Ser(R, b), n) {
      assert Coef(R, res, n) == ProductPlus(R, a, b, start, n);
      Units(R, Conv(R, Ser(R, a), Ser(R, b), n));
    }
  }

  method Fill<T>(R: Ring<T>, res: array<T>)
    modifies res
    ensures forall i | 0 <= i < res.Length :: res[i] == R.zero
  {
    for i := 0 to res.Length
      invariant forall k | 0 <= k < i :: res[k] == R.zero
    {
      res[i] := R.zero;
    }
  }

  /** a - b, the shorter operand read as continued with zeros. */
  method Subtract<T(00,!new)>(R: Ring<T>, a: seq<T>, b: seq<T>, res: array<T>)
    requires IsRing(R) && |a| <= res.Length && |b| <= res.Length
    modifies res
    ensures forall n | 0 <= n < res.Length && (n < |a| || n < |b|) :: res[n] == R.sub(Coef(R, a, n), Coef(R, b, n))
    ensures forall n | 0 <= n < res.Length && |a| <= n && |b| <= n :: res[n] == old(res[n])
  {
    var len := if |a| >= |b| then |a| else |b|;
    for i := 0 to len
      invariant forall n | 0 <= n < i :: res[n] == R.sub(Coef(R, a, n), Coef(R, b, n))
      invariant forall n | i <= n < res.Length :: res[n] == old(res[n])
    {
      if i < |a| && i < |b| {
        res[i] := R.sub(a[i], b[i]);
      } else if i < |a| {
        Units(R, a[i]);
        res[i] := a[i];
      } else {
        res[i] := R.sub(R.zero, b[i]);
      }
    }
  }

  /** Coefficient i times the i-th power of s. */
  method Shift<T(!new)>(R: Ring<T>, a: seq<T>, s: T, res: array<T>)
    requires |a| <= res.Length
    modifies res
    ensures forall i | 0 <= i < |a| :: res[i] == R.mul(a[i], Pow(R, s, i))
    ensures forall i | |a| <= i < res.Length :: res[i] == old(res[i])
  {
    var power := R.one;
    for i := 0 to |a|
      invariant power == Pow(R, s, i)
      invariant forall k | 0 <= k < i :: res[k] == R.mul(a[k], Pow(R, s, k))
      invariant forall k | i <= k < res.Length :: res[k] == old(res[k])
    {
      res[i] := R.mul(a[i], power);
      power := R.mul(power, s);
    }
  }

  /** The values of a polynomial on the coset of powers of the root moved by the offset. */
  method Coseword<T(!new)>(R: Ring<T>, a: seq<T>, offset: T, order: nat, root: T) returns (values: seq<T>)
    requires IsRing(R) && |a| <= order < 0x1_0000_0000 && IsPow2(order) && Halves(R, root, order)
    ensures |values| == order
    ensures forall k: nat | k < order :: values[k] == Eval(R, a, R.mul(offset, Pow(R, root, k)))
  {
    var res := new T[order](_ => R.zero);
    Shift(R, a, offset, res);
    ghost var shifted := res[..];
    values := Transform(R, res[..], root);
    forall k: nat | k < order ensures values[k] == Eval(R, a, R.mul(offset, Pow(R, root, k))) {
      ShiftedValue(R, a, shifted, offset, root, k);
    }
  }

  lemma ShiftedValue<T(!new)>(R: Ring<T>, a: seq<T>, shifted: seq<T>, offset: T, root: T, k: nat)
    requires IsRing(R) && |a| <= |shifted|
    requires forall i: nat | i < |shifted| :: shifted[i] == if i < |a| then R.mul(a[i], Pow(R, offset, i)) else R.zero
    ensures Dft(R, shifted, root, k) == Eval(R, a, R.mul(offset, Pow(R, root, k)))
  {
    DftIsEval(R, shifted, root, k);
    EvalScaledPowers(R, a, shifted, offset, 0, Pow(R, root, k));
    Units(R, Eval(R, a, R.mul(offset, Pow(R, root, k))));
  }

  method Hadamard<T>(R: Ring<T>, a: seq<T>, b: seq<T>) returns (res: seq<T>)
    requires |a| == |b|
    ensures |res| == |a| && forall i | 0 <= i < |a| :: res[i] == R.mul(a[i], b[i])
  {
    res := [];
    for i := 0 to |a|
      invariant |res| == i && forall k | 0 <= k < i :: res[k] == R.mul(a[k], b[k])
    {
      res := res + [R.mul(a[i], b[i])];
    }
  }

  /** Evaluation as the code folds it, from the highest coefficient down. */
  function Horner<T>(R: Ring<T>, x: T, coefficients: seq<T>): T
    requires coefficients != []
  {
    if |coefficients| == 1 then coefficients[0]
    else R.add(R.mul(Horner(R, x, coefficients[1..]), x), coefficients[0])
  }

  /** The fold computes the sum of the coefficients times the powers of x. */
  lemma {:induction false} HornerIsSum<T(!new)>(R: Ring<T>, x: T, p: seq<T>)
    requires IsRing(R) && p != []
    ensures Horner(R, x, p) == Sum(R, (j: nat) => R.mul(Coef(R, p, j), Pow(R, x, j)), |p|)
  {
    HornerIsEval(R, x, p);
    EvalIsSum(R, p, x);
  }

  lemma {:induction false} HornerIsEval<T(!new)>(R: Ring<T>, x: T, p: seq<T>)
    requires IsRing(R) && p != []
    ensures Horner(R, x, p) == Eval(R, p, x)
  {
    var v := Eval(R, p[1..], x);
    if |p| == 1 {
      assert p[1..] == [];
      Units(R, x);
      Units(R, p[0]);
    } else {
      HornerIsEval(R, x, p[1..]);
      Mul3(R, x, v, x);
      Add3(R, p[0], R.mul(x, v), x);
    }
  }

  /** Transforming with a root and back with its inverse multiplies every entry by the length. */
  method TransformBack<T(!new)>(R: Ring<T>, x: seq<T>, root: T, inverse: T) returns (z: seq<T>)
    requires IsRing(R) && IsPow2(|x|) && |x| < 0x1_0000_0000 && Halves(R, root, |x|) && R.mul(root, inverse) == R.one
    ensures |z| == |x| && forall i | 0 <= i < |x| :: z[i] == R.mul(FromNat(R, |x|), x[i])
  {
    var y := Transform(R, x, root);
    if |x| > 1 { InverseRootHalves(R, root, inverse, |x| / 2); }
    z := Transform(R, y, inverse);
    forall i: nat | i < |x| ensures z[i] == R.mul(FromNat(R, |x|), x[i]) {
      InverseTransform(R, x, y, root, inverse, i);
    }
  }

  /** p continued with zeros to n coefficients. */
  function ZeroExtended<T>(R: Ring<T>, p: seq<T>, n: nat): seq<T>
    requires |p| <= n
  {
    p + seq(n - |p|, _ => R.zero)
  }

  /** The transform of a zero-extended product and the pointwise product of the transforms. */
  method TransformProduct<T(==,00,!new)>(R: Ring<T>, a: seq<T>, b: seq<T>, n: nat, root: T) returns (left: seq<T>, right: seq<T>)
    requires IsRing(R) && IsPow2(n) && n < 0x1_0000_0000 && Halves(R, root, n)
    requires 0 < |a| && 0 < |b| && |a| + |b| - 1 <= n
    ensures |left| == n && left == right
  {
    var res := new T[|a| + |b| - 1](_ => R.zero);
    Multiply(R, a, b, res);
    var c, pa, pb := ZeroExtended(R, res[..], n), ZeroExtended(R, a, n), ZeroExtended(R, b, n);
    ProductSeries(R, a, b, res[..]);
    SerPad(R, c, res[..]);
    SerPad(R, pa, a);
    SerPad(R, pb, b);
    left := Transform(R, c, root);
    var ta := Transform(R, pa, root);
    var tb := Transform(R, pb, root);
    right := Hadamard(R, ta, tb);
    forall k: nat | k < n ensures left[k] == right[k] {
      Convolution(R, a, b, c, pa, pb, root, k);
    }
  }
}

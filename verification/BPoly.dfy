/** Polynomials over the base field: the generic algorithms at their instance. */
module BPoly {
  import opened Options
  import opened Modular
  import opened Bits
  import opened Rings
  import opened PowerSeries
  import opened Polynomials
  import opened SeriesIdentities
  import opened Ntt
  import opened NttLaws
  import opened PolyLoops
  import opened PolyDivision
  import opened PolyGcd
  import opened Goldilocks
  import opened Words
  import opened Primality
  import opened Inverses
  import opened FeltField

  type Poly = seq<Belt>

  /* Roots of unity. */

  /** The table entry for a power of two up to 2^32, no root otherwise. */
  function OrderedRoot(order: nat): Option<Belt>
    requires order > 0
  {
    var log := Log2(order);
    if log >= |ROOTS| then None
    else if order != Pow2(log) then None
    else Some(ROOTS[log])
  }

  /** Seven to the power (P - 1) / order. */
  ghost function UnityRoot(order: nat): Belt
    requires order > 0
  {
    Pow(BeltRing(), 7, (PRIME - 1) / order)
  }

  /** A root comes back exactly for the powers of two up to 2^32, and it has the order asked for. */
  lemma OrderedRootOrder(order: nat)
    requires order > 0
    ensures OrderedRoot(order).Some? <==> IsPow2(order) && order <= 0x1_0000_0000
    ensures var r := OrderedRoot(order); r.Some? ==> Halves(BeltRing(), r.value, order) && HasOrder(BeltRing(), r.value, order)
    ensures var r := OrderedRoot(order); r.Some? ==> r.value == UnityRoot(order)
  {
    PowerInTable(order, |ROOTS| - 1);
    if IsPow2(order) && Log2(order) < |ROOTS| {
      TableRoot(order, Log2(order));
      TableEntry(order, Log2(order), 32 - Log2(order));
    }
  }

  lemma TableEntry(order: nat, i: nat, k: nat)
    requires i + k == 32 && order == Pow2(i)
    ensures ROOTS[i] == UnityRoot(order)
  {
    var e := Pow2(i + k) - 1;
    LastRoot(i + k);
    RootIsSeven(i, k, e);
    DoubledIs(e, k);
    Pow2Add(i, k);
    Pow2Of32();
    OddPart(e, Pow2(k), order);
  }

  /** P - 1 is (2^32 - 1) 2^32. */
  lemma OddPart(e: nat, p: nat, order: nat)
    requires e == 0xffff_ffff && order > 0 && order * p == 0x1_0000_0000
    ensures (PRIME - 1) / order == e * p
  {
    assert (e * p) * order == e * (order * p);
    DivModUnique(PRIME - 1, order, e * p, 0);
  }

  /** n is the least positive exponent that takes r to one. */
  ghost predicate HasOrder<T>(R: Ring<T>, r: T, n: nat) {
    Pow(R, r, n) == R.one && forall d: nat | 0 < d < n :: Pow(R, r, d) != R.one
  }

  lemma PowerInTable(order: nat, top: nat)
    requires order > 0 && top == 32
    ensures IsPow2(order) ==> (Log2(order) <= top <==> order <= 0x1_0000_0000)
  {
    Pow2Of32();
    Pow2Order(Log2(order), top);
  }

  lemma TableRoot(order: nat, log: nat)
    requires log <= 32 && order == Pow2(log)
    ensures Halves(BeltRing(), ROOTS[log], order) && HasOrder(BeltRing(), ROOTS[log], order)
  {
    BeltIsRing();
    PowSmall(BeltRing(), 1);
    if log > 0 {
      RootHalves(log);
      OrderIs(BeltRing(), ROOTS[log], log);
    }
  }

  /** If the power by half of 2^l is minus one, the order is 2^l. */
  lemma OrderIs<T(!new)>(R: Ring<T>, r: T, l: nat)
    requires IsRing(R) && l > 0 && Pow(R, r, Pow2(l - 1)) == Neg(R, R.one) && Neg(R, R.one) != R.one
    ensures HasOrder(R, r, Pow2(l))
  {
    FullPower(R, r, Pow2(l - 1));
    forall d: nat | 0 < d < Pow2(l) ensures Pow(R, r, d) != R.one {
      var t, o := OddMultiple(d, l);
      NotYetOne(R, r, d, Pow2(t), Pow2(l - 1), o);
    }
  }

  lemma NotYetOne<T(!new)>(R: Ring<T>, r: T, d: nat, m: nat, h: nat, o: nat)
    requires IsRing(R) && Pow(R, r, h) == Neg(R, R.one) && Neg(R, R.one) != R.one && d * m == (2 * o + 1) * h
    ensures Pow(R, r, d) != R.one
  {
    PowMul(R, r, d, m);
    assert (2 * o + 1) * h == h * (2 * o + 1);
    PowMul(R, r, h, 2 * o + 1);
    MinusOneSquared(R);
    OddPow(R, Neg(R, R.one), o);
    PowOne(R, m);
  }

  lemma MinusOneSquared<T(!new)>(R: Ring<T>)
    requires IsRing(R)
    ensures R.mul(Neg(R, R.one), Neg(R, R.one)) == R.one
  {
    NegMul(R, R.one, Neg(R, R.one));
    NegNeg(R, R.one);
    Units(R, Neg(R, R.one));
  }

  lemma FullPower<T(!new)>(R: Ring<T>, r: T, h: nat)
    requires IsRing(R) && Pow(R, r, h) == Neg(R, R.one)
    ensures Pow(R, r, 2 * h) == R.one
  {
    PowMul(R, r, h, 2);
    PowSmall(R, Neg(R, R.one));
    MinusOneSquared(R);
  }

  /* The transform. */

  method BpNtt(bp: Poly, root: Belt) returns (res: Poly)
    requires IsPow2(|bp|) && |bp| < 0x1_0000_0000 && Halves(BeltRing(), root, |bp|)
    ensures |res| == |bp| && forall k: nat | k < |bp| :: res[k] == Dft(BeltRing(), bp, root, k)
  {
    BeltIsRing();
    res := Transform(BeltRing(), bp, root);
  }

  /** The transform with the table's root: it fails exactly when the length is not a power of two. */
  method BpFft(bp: Poly) returns (res: Option<Poly>)
    requires 0 < |bp| < 0x1_0000_0000
    ensures res.Some? <==> IsPow2(|bp|)
    ensures res.Some? ==> |res.value| == |bp|
    ensures res.Some? ==> forall k: nat | k < |bp| :: res.value[k] == Dft(BeltRing(), bp, UnityRoot(|bp|), k)
  {
    OrderedRootOrder(|bp|);
    var root := OrderedRoot(|bp|);
    if root.None? { return None; }
    var values := BpNtt(bp, root.value);
    res := Some(values);
  }

  lemma {:induction false} FromNatIsRemainder(n: nat)
    ensures FromNat(BeltRing(), n) == n % PRIME
  {
    if n == 0 {
      ModSmall(0, PRIME);
    } else {
      FromNatIsRemainder(n - 1);
      ModAdd(n - 1, 1, PRIME);
    }
  }

  /** Transforming with a root and then with its inverse gives n times the input. */
  method BpNttBack(bp: Poly, root: Belt, inverse: Belt) returns (res: Poly)
    requires IsPow2(|bp|) && |bp| < 0x1_0000_0000 && Halves(BeltRing(), root, |bp|) && BeltMul(root, inverse) == 1
    ensures |res| == |bp| && forall i: nat | i < |bp| :: res[i] == BeltMul(|bp| % PRIME, bp[i])
  {
    BeltIsRing();
    FromNatIsRemainder(|bp|);
    res := TransformBack(BeltRing(), bp, root, inverse);
  }

  /** The transform of the zero-extended product, and the pointwise product of the transforms. */
  method BpConvolution(a: Poly, b: Poly, n: nat, root: Belt) returns (left: Poly, right: Poly)
    requires IsPow2(n) && n < 0x1_0000_0000 && Halves(BeltRing(), root, n)
    requires 0 < |a| && 0 < |b| && |a| + |b| - 1 <= n
    ensures |left| == n && left == right
  {
    BeltIsRing();
    left, right := TransformProduct(BeltRing(), a, b, n, root);
  }

  method BPow(a: Belt, b: nat) returns (c: Belt)
    requires b < 0x1_0000_0000_0000_0000
    ensures c == Pow(BeltRing(), a, b)
  {
    BeltIsRing();
    c := Power(BeltRing(), a, b);
  }

  /** The inverse by the addition chain and by square and multiply. */
  method InverseTwoWays(a: Belt) returns (chain: Belt, power: Belt)
    ensures chain == BInv(a) && chain == power
    ensures a != 0 ==> BeltMul(a, power) == 1
  {
    chain := BInv(a);
    power := BPow(a, PRIME - 2);
    BInvIsPower(a);
    if a != 0 { BInvInverts(a); }
  }

  method BpCoseword(bp: Poly, offset: Belt, order: nat, root: Belt) returns (values: Poly)
    requires |bp| <= order < 0x1_0000_0000 && IsPow2(order) && Halves(BeltRing(), root, order)
    ensures |values| == order
    ensures forall k: nat | k < order :: values[k] == Eval(BeltRing(), bp, BeltMul(offset, Pow(BeltRing(), root, k)))
  {
    BeltIsRing();
    values := Coseword(BeltRing(), bp, offset, order, root);
  }

  /* Arithmetic. */

  method BpMul(a: Poly, b: Poly) returns (res: Poly)
    requires |a| + |b| > 0
    ensures |res| == |a| + |b| - 1 && IsProduct(BeltRing(), a, b, res)
  {
    BeltIsRing();
    res := FreshProduct(BeltRing(), a, b);
  }

  method FreshProduct<T(==,00,!new)>(R: Ring<T>, a: seq<T>, b: seq<T>) returns (res: seq<T>)
    requires IsRing(R) && |a| + |b| > 0
    ensures |res| == |a| + |b| - 1 && IsProduct(R, a, b, res)
  {
    var buffer := new T[|a| + |b| - 1](_ => R.zero);
    Multiply(R, a, b, buffer);
    res := buffer[..];
  }

  /** Long division into buffers of the given lengths. */
  method BpDvr(a: Poly, b: Poly, qLen: nat, rLen: nat) returns (q: Poly, r: Poly)
    requires !IsZero(BeltRing(), a) ==> !IsZero(BeltRing(), b)
    requires var da, db := Degree(BeltRing(), a), Degree(BeltRing(), b);
      !IsZero(BeltRing(), a) ==>
        && qLen >= (if da < db then 0 else da - db) + 1
        && rLen >= if da < db then da + 1 else if db == 0 then 1 else db
    ensures |q| == qLen && |r| == rLen && Divided(BeltRing(), a, b, q, r)
    ensures forall n | Degree(BeltRing(), b) <= n < rLen :: r[n] == 0
  {
    BeltIsField();
    q, r := FreshDivision(BeltField(), a, b, qLen, rLen);
  }

  method FreshDivision<T(==,00,!new)>(F: Field<T>, a: seq<T>, b: seq<T>, qLen: nat, rLen: nat) returns (q: seq<T>, r: seq<T>)
    requires IsField(F)
    requires !IsZero(F.ring, a) ==> !IsZero(F.ring, b)
    requires var da, db := Degree(F.ring, a), Degree(F.ring, b);
      !IsZero(F.ring, a) ==>
        && qLen >= (if da < db then 0 else da - db) + 1
        && rLen >= if da < db then da + 1 else if db == 0 then 1 else db
    ensures |q| == qLen && |r| == rLen && Divided(F.ring, a, b, q, r)
    ensures forall n | Degree(F.ring, b) <= n < rLen :: r[n] == F.ring.zero
  {
    var qs := new T[qLen](_ => F.ring.zero);
    var rs := new T[rLen](_ => F.ring.zero);
    Divide(F, a, b, qs, rs);
    q, r := qs[..], rs[..];
  }

  /** The extended Euclidean algorithm into zero-filled buffers of the given lengths. */
  method BpEgcd(a: Poly, b: Poly, dLen: nat, uLen: nat, vLen: nat) returns (d: Poly, u: Poly, v: Poly)
    requires dLen >= if IsZero(BeltRing(), b) then |a| else |b|
    requires var m := Max(Degree(BeltRing(), a), Degree(BeltRing(), b)) + 1; uLen >= m && vLen >= m
    ensures |d| == dLen && |u| == uLen && |v| == vLen
    ensures Combines(BeltRing(), d, u, a, v, b)
    ensures DividesBoth(BeltRing(), d, a, b)
    ensures !IsZero(BeltRing(), b) ==> !IsZero(BeltRing(), d)
    ensures LastRemainder(BeltRing(), a, b, d)
    ensures !IsZero(BeltRing(), b) ==> SmallCofactors(BeltRing(), a, b, d, u, v)
  {
    BeltIsField();
    d, u, v := PaddedGcd(BeltField(), a, b, dLen, uLen, vLen);
  }

  method PaddedGcd<T(==,00,!new)>(F: Field<T>, a: seq<T>, b: seq<T>, dLen: nat, uLen: nat, vLen: nat) returns (d: seq<T>, u: seq<T>, v: seq<T>)
    requires IsField(F)
    requires dLen >= if IsZero(F.ring, b) then |a| else |b|
    requires var m := Max(Degree(F.ring, a), Degree(F.ring, b)) + 1; uLen >= m && vLen >= m
    ensures |d| == dLen && |u| == uLen && |v| == vLen
    ensures Combines(F.ring, d, u, a, v, b)
    ensures DividesBoth(F.ring, d, a, b)
    ensures !IsZero(F.ring, b) ==> !IsZero(F.ring, d)
    ensures LastRemainder(F.ring, a, b, d)
    ensures !IsZero(F.ring, b) ==> SmallCofactors(F.ring, a, b, d, u, v)
  {
    var d0, u0, v0 := ExtendedGcd(F, a, b);
    var R := F.ring;
    d, u, v := ZeroExtended(R, d0, dLen), ZeroExtended(R, u0, uLen), ZeroExtended(R, v0, vLen);
    ExtensionKeeps(R, d0, dLen);
    ExtensionKeeps(R, u0, uLen);
    ExtensionKeeps(R, v0, vLen);
    PaddedCombination(R, a, b, d0, u0, v0, d, u, v);
    PaddedRemainder(R, a, b, d0, d);
    SameDegree(R, d0, d);
  }

  lemma PaddedRemainder<T(00,!new)>(R: Ring<T>, a: seq<T>, b: seq<T>, d0: seq<T>, d: seq<T>)
    requires LastRemainder(R, a, b, d0) && forall n: nat :: Coef(R, d, n) == Coef(R, d0, n)
    ensures LastRemainder(R, a, b, d)
  {
    var rs :| Ends(R, a, b, rs, d0);
    assert Ends(R, a, b, rs, d);
  }

  lemma SameDegree<T>(R: Ring<T>, p: seq<T>, q: seq<T>)
    requires forall n: nat :: Coef(R, q, n) == Coef(R, p, n)
    ensures Degree(R, p) == Degree(R, q)
  {
    assert Coef(R, p, Degree(R, p)) == Coef(R, q, Degree(R, p));
    assert Coef(R, p, Degree(R, q)) == Coef(R, q, Degree(R, q));
    assert forall i | 0 <= i < |p| :: p[i] == Coef(R, p, i);
    assert forall i | 0 <= i < |q| :: q[i] == Coef(R, q, i);
  }

  lemma ExtensionKeeps<T>(R: Ring<T>, p: seq<T>, n: nat)
    requires |p| <= n
    ensures forall k: nat :: Coef(R, ZeroExtended(R, p, n), k) == Coef(R, p, k)
    ensures IsZero(R, ZeroExtended(R, p, n)) ==> IsZero(R, p)
  {
    assert forall i | 0 <= i < |p| :: ZeroExtended(R, p, n)[i] == p[i];
  }

  lemma PaddedCombination<T(00,!new)>(R: Ring<T>, a: seq<T>, b: seq<T>, d0: seq<T>, u0: seq<T>, v0: seq<T>, d: seq<T>, u: seq<T>, v: seq<T>)
    requires Combines(R, d0, u0, a, v0, b) && DividesBoth(R, d0, a, b)
    requires forall n: nat :: Coef(R, d, n) == Coef(R, d0, n)
    requires forall n: nat :: Coef(R, u, n) == Coef(R, u0, n)
    requires forall n: nat :: Coef(R, v, n) == Coef(R, v0, n)
    ensures Combines(R, d, u, a, v, b) && DividesBoth(R, d, a, b)
  {
    SerPad(R, u, u0);
    SerPad(R, v, v0);
    SerPad(R, d0, d);
    forall n: nat ensures Coef(R, d, n) == TwoProducts(R, u, a, v, b, n) {
      assert Coef(R, d0, n) == TwoProducts(R, u0, a, v0, b, n);
    }
    DividesPad(R, d0, d, a);
    DividesPad(R, d0, d, b);
  }
}

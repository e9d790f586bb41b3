/** Inversion in the cubic extension, through the extended Euclidean algorithm. */
module FeltField {
  import opened Modular
  import opened Rings
  import opened PowerSeries
  import opened Polynomials
  import opened PolyGcd
  import opened Factors
  import opened Goldilocks
  import opened Words
  import opened Inverses
  import opened Felts
  import opened Irreducible

  function BeltField(): Field<Belt> { Field(BeltRing(), BInv) }

  lemma BeltIsField()
    ensures IsField(BeltField())
  {
    BeltIsRing();
    forall x: Belt | x != 0 ensures BeltMul(x, BInv(x)) == 1 { BInvInverts(x); }
  }

  /* The extension as values of polynomials at x. */

  lemma LiftIsHom()
    ensures IsHom(BeltRing(), FeltRing(), Lift)
  {
    forall a: Belt, b: Belt ensures FMul(Lift(a), Lift(b)) == Lift(BeltMul(a, b)) {
      MulResidue(Lift(a), Lift(b));
    }
  }

  ghost function AtX(p: seq<Belt>): Felt { Eval(FeltRing(), Mapped(Lift, p), X) }

  lemma TimesXLimbs(b: Felt)
    ensures FMul(X, b) == Felt(BeltSub(0, b.c2), BeltAdd(b.c0, b.c2), b.c1)
  {
    MulResidue(X, b);
    ModSmall(b.c1, PRIME);
  }

  lemma AddLiftLimbs(a: Belt, b: Felt)
    ensures FAdd(Lift(a), b) == Felt(BeltAdd(a, b.c0), b.c1, b.c2)
  {
    ModSmall(b.c1, PRIME);
    ModSmall(b.c2, PRIME);
  }

  lemma AtXStep(p: seq<Belt>)
    requires p != []
    ensures var t := AtX(p[1..]); AtX(p) == Felt(BeltAdd(p[0], BeltSub(0, t.c2)), BeltAdd(t.c0, t.c2), t.c1)
  {
    assert Mapped(Lift, p)[1..] == Mapped(Lift, p[1..]);
    TimesXLimbs(AtX(p[1..]));
    AddLiftLimbs(p[0], FMul(X, AtX(p[1..])));
  }

  /** A list of at most three coefficients is the element with those limbs. */
  lemma AtXThree(p: seq<Belt>)
    requires |p| == 3
    ensures AtX(p) == Felt(p[0], p[1], p[2])
  {
    assert p[1..][1..] == p[2..] && p[2..][1..] == [];
    assert AtX([]) == FELT0;
    AtXStep(p[2..]);
    AtXStep(p[1..]);
    AtXStep(p);
    ModSmall(p[0], PRIME);
    ModSmall(p[1], PRIME);
    ModSmall(p[2], PRIME);
  }

  lemma AtXIrd()
    ensures AtX(IRD) == FELT0
  {
    var p: seq<Belt> := [PRIME - 1, 0, 1];
    assert IRD[1..] == p;
    AtXThree(p);
    AtXStep(IRD);
  }

  /* The inverse. */

  lemma IrdFacts()
    ensures !IsZero(BeltRing(), IRD) && Degree(BeltRing(), IRD) == 3 && NoRoots(BeltRing(), IRD)
  {
    DegreeIs(BeltRing(), IRD, 3);
    forall r: Belt ensures Eval(BeltRing(), IRD, r) != 0 { NoRoot(r); }
  }

  /** p continued with zeros to n coefficients. */
  function Padded(p: seq<Belt>, n: nat): (r: seq<Belt>)
    requires |p| <= n
  {
    p + seq(n - |p|, _ => 0)
  }

  lemma AtXPadded(p: seq<Belt>, q: seq<Belt>)
    requires forall n: nat :: Coef(BeltRing(), p, n) == Coef(BeltRing(), q, n)
    ensures AtX(p) == AtX(q)
  {
    FeltIsRing();
    forall n: nat ensures Coef(FeltRing(), Mapped(Lift, p), n) == Coef(FeltRing(), Mapped(Lift, q), n) {
      assert Coef(FeltRing(), Mapped(Lift, p), n) == Lift(Coef(BeltRing(), p, n));
      assert Coef(FeltRing(), Mapped(Lift, q), n) == Lift(Coef(BeltRing(), q, n));
    }
    EvalExt(FeltRing(), Mapped(Lift, p), Mapped(Lift, q), X);
  }

  /** The Bezout combination, read in the extension: the constant gcd is v times a. */
  lemma BezoutInExtension(a: Felt, d: seq<Belt>, u: seq<Belt>, v: seq<Belt>)
    requires Combines(BeltRing(), d, u, IRD, v, [a.c0, a.c1, a.c2])
    ensures AtX(d) == FMul(AtX(v), a)
  {
    var Q := FeltRing();
    BeltIsRing();
    FeltIsRing();
    LiftIsHom();
    EvalCombination(BeltRing(), Q, Lift, d, u, IRD, v, [a.c0, a.c1, a.c2], X);
    AtXIrd();
    AtXThree([a.c0, a.c1, a.c2]);
    Units(Q, AtX(u));
    Units(Q, FMul(AtX(v), a));
  }

  lemma ScaledInverse(a: Felt, w: Felt, d0: Belt, res: Felt)
    requires d0 != 0 && Lift(d0) == FMul(w, a) && res == FMul(Lift(BInv(d0)), w)
    ensures FMul(a, res) == FELT1
  {
    var Q := FeltRing();
    FeltIsRing();
    BeltIsField();
    LiftIsHom();
    var i := BInv(d0);
    Mul3(Q, Lift(i), w, a);
    Mul3(Q, res, a, a);
    assert FMul(Lift(i), Lift(d0)) == Lift(BeltMul(i, d0));
    MulLaws(d0, i, i);
  }

  /** The inverse of the constant limb of the gcd, and the limbs of the cofactor v. */
  method Bezout(a: Felt) returns (scale: Belt, w: Felt)
    ensures a == FELT0 ==> w == FELT0
    ensures a != FELT0 ==> FMul(a, FMul(Lift(scale), w)) == FELT1
  {
    BeltIsField();
    IrdFacts();
    var d, u, v := ExtendedGcd(BeltField(), IRD, [a.c0, a.c1, a.c2]);
    var polyD, polyV := Padded(d, 4), Padded(v, 4);
    scale, w := BInv(polyD[0]), Felt(polyV[0], polyV[1], polyV[2]);
    if a != FELT0 {
      ghost var w' := InverseFound(a, d, u, v);
    }
  }

  method FInv(a: Felt) returns (res: Felt)
    ensures a == FELT0 ==> res == FELT0
    ensures a != FELT0 ==> FMul(a, res) == FELT1
  {
    var scale, w := Bezout(a);
    res := Felt(BeltMul(scale, w.c0), BeltMul(scale, w.c1), BeltMul(scale, w.c2));
    ScaleLimbs(scale, w);
  }

  lemma ConstantGcd(a: Felt, d: seq<Belt>)
    requires a != FELT0 && DividesBoth(BeltRing(), d, IRD, [a.c0, a.c1, a.c2])
    ensures d != [] && d[0] != 0 && AtX(d) == Lift(d[0])
  {
    BeltIsField();
    IrdFacts();
    var p := [a.c0, a.c1, a.c2];
    assert p[0] != 0 || p[1] != 0 || p[2] != 0;
    CommonDivisorIsConstant(BeltField(), d, IRD, p);
    AtXPadded(d, [d[0], 0, 0]);
    AtXThree([d[0], 0, 0]);
  }

  lemma ShortValue(v: seq<Belt>) returns (w: Felt)
    requires |v| <= 3
    ensures w == AtX(v) == Felt(Padded(v, 4)[0], Padded(v, 4)[1], Padded(v, 4)[2])
  {
    var p := Padded(v, 3);
    AtXPadded(v, p);
    AtXThree(p);
    w := AtX(v);
  }

  lemma InverseFound(a: Felt, d: seq<Belt>, u: seq<Belt>, v: seq<Belt>) returns (w: Felt)
    requires a != FELT0 && |v| <= 3
    requires Combines(BeltRing(), d, u, IRD, v, [a.c0, a.c1, a.c2])
    requires DividesBoth(BeltRing(), d, IRD, [a.c0, a.c1, a.c2])
    ensures w == Felt(Padded(v, 4)[0], Padded(v, 4)[1], Padded(v, 4)[2])
    ensures d != [] && FMul(a, FMul(Lift(BInv(d[0])), w)) == FELT1
  {
    w := ShortValue(v);
    ConstantGcd(a, d);
    BezoutInExtension(a, d, u, v);
    ScaledInverse(a, w, d[0], FMul(Lift(BInv(d[0])), w));
  }

  lemma ScaleLimbs(c: Belt, w: Felt)
    ensures FMul(Lift(c), w) == Felt(BeltMul(c, w.c0), BeltMul(c, w.c1), BeltMul(c, w.c2))
  {
    MulResidue(Lift(c), w);
  }

  method FDiv(a: Felt, b: Felt) returns (res: Felt)
    ensures b != FELT0 ==> FMul(res, b) == a
    ensures a == FELT0 ==> res == FELT0
  {
    var inverse := FInv(b);
    res := FMul(a, inverse);
    FeltIsRing();
    Units(FeltRing(), inverse);
    FMulAssociates(a, inverse, b);
    FMulCommutes(b, inverse);
    FMulOne(a);
  }
}

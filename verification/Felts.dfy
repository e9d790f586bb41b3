/** The cubic extension: polynomials of degree below three modulo x^3 - x + 1. */
module Felts {
  import opened Modular
  import opened Rings
  import opened Goldilocks

  datatype Felt = Felt(c0: Belt, c1: Belt, c2: Belt)

  const FELT0: Felt := Felt(0, 0, 0)
  const FELT1: Felt := Felt(1, 0, 0)

  function Lift(a: Belt): Felt { Felt(a, 0, 0) }

  function FAdd(a: Felt, b: Felt): Felt {
    Felt(BeltAdd(a.c0, b.c0), BeltAdd(a.c1, b.c1), BeltAdd(a.c2, b.c2))
  }

  function FSub(a: Felt, b: Felt): Felt {
    Felt(BeltSub(a.c0, b.c0), BeltSub(a.c1, b.c1), BeltSub(a.c2, b.c2))
  }

  /** Karatsuba products, then x^3 = x - 1 and x^4 = x^2 - x. */
  function FMul(a: Felt, b: Felt): Felt {
    var p00, p11, p22 := BeltMul(a.c0, b.c0), BeltMul(a.c1, b.c1), BeltMul(a.c2, b.c2);
    var p01 := BeltSub(BeltSub(BeltMul(BeltAdd(a.c0, a.c1), BeltAdd(b.c0, b.c1)), p00), p11);
    var p12 := BeltSub(BeltSub(BeltMul(BeltAdd(a.c1, a.c2), BeltAdd(b.c1, b.c2)), p11), p22);
    var p02 := BeltSub(BeltSub(BeltMul(BeltAdd(a.c0, a.c2), BeltAdd(b.c0, b.c2)), p00), p22);
    Felt(BeltSub(p00, p12), BeltSub(BeltAdd(p01, p12), p22), BeltAdd(BeltAdd(p02, p11), p22))
  }

  function FeltRing(): Ring<Felt> {
    Ring(FELT0, FELT1, FAdd, FSub, FMul)
  }

  /* The product over the integers, before reduction modulo the prime. */

  datatype Triple = Triple(x0: int, x1: int, x2: int)

  ghost function IntMul(a: Triple, b: Triple): Triple {
    Triple(a.x0 * b.x0 - (a.x1 * b.x2 + a.x2 * b.x1),
           a.x0 * b.x1 + a.x1 * b.x0 + (a.x1 * b.x2 + a.x2 * b.x1) - a.x2 * b.x2,
           a.x0 * b.x2 + a.x2 * b.x0 + a.x1 * b.x1 + a.x2 * b.x2)
  }

  ghost function Ints(a: Felt): Triple { Triple(a.c0, a.c1, a.c2) }

  ghost function Residue(t: Triple): Felt { Felt(t.x0 % PRIME, t.x1 % PRIME, t.x2 % PRIME) }

  lemma MulOfSums(s: int, t: int)
    ensures BeltMul(s % PRIME, t % PRIME) == (s * t) % PRIME
  {
    ModMul(s, t % PRIME, PRIME);
    ModMul(s, t, PRIME);
  }

  lemma SubTwice(u: int, v: int, w: int)
    ensures BeltSub(BeltSub(u % PRIME, v % PRIME), w % PRIME) == (u - v - w) % PRIME
  {
    ModSub(u, v % PRIME, PRIME);
    ModSub(u, v, PRIME);
    ModSub(u - v, w % PRIME, PRIME);
    ModSub(u - v, w, PRIME);
  }

  /** (x0 + x1)(y0 + y1) - x0 y0 - x1 y1 is the cross product sum. */
  lemma Cross(x0: Belt, x1: Belt, y0: Belt, y1: Belt)
    ensures BeltSub(BeltSub(BeltMul(BeltAdd(x0, x1), BeltAdd(y0, y1)), BeltMul(x0, y0)), BeltMul(x1, y1))
         == (x0 * y1 + x1 * y0) % PRIME
  {
    MulOfSums(x0 + x1, y0 + y1);
    SubTwice((x0 + x1) * (y0 + y1), x0 * y0, x1 * y1);
    CrossTerms(x0, x1, y0, y1);
  }

  lemma CrossTerms(x0: int, x1: int, y0: int, y1: int)
    ensures (x0 + x1) * (y0 + y1) - x0 * y0 - x1 * y1 == x0 * y1 + x1 * y0
  {
  }

  lemma MulResidue(a: Felt, b: Felt)
    ensures FMul(a, b) == Residue(IntMul(Ints(a), Ints(b)))
  {
    Cross(a.c0, a.c1, b.c0, b.c1);
    Cross(a.c1, a.c2, b.c1, b.c2);
    Cross(a.c0, a.c2, b.c0, b.c2);
    var m01 := BeltSub(BeltSub(BeltMul(BeltAdd(a.c0, a.c1), BeltAdd(b.c0, b.c1)), BeltMul(a.c0, b.c0)), BeltMul(a.c1, b.c1));
    var m12 := BeltSub(BeltSub(BeltMul(BeltAdd(a.c1, a.c2), BeltAdd(b.c1, b.c2)), BeltMul(a.c1, b.c1)), BeltMul(a.c2, b.c2));
    var m02 := BeltSub(BeltSub(BeltMul(BeltAdd(a.c0, a.c2), BeltAdd(b.c0, b.c2)), BeltMul(a.c0, b.c0)), BeltMul(a.c2, b.c2));
    Collect(BeltMul(a.c0, b.c0), BeltMul(a.c1, b.c1), BeltMul(a.c2, b.c2), m01, m12, m02,
            a.c0 * b.c0, a.c1 * b.c1, a.c2 * b.c2,
            a.c0 * b.c1 + a.c1 * b.c0, a.c1 * b.c2 + a.c2 * b.c1, a.c0 * b.c2 + a.c2 * b.c0);
  }

  lemma Collect(m00: Belt, m11: Belt, m22: Belt, m01: Belt, m12: Belt, m02: Belt,
                p00: int, p11: int, p22: int, p01: int, p12: int, p02: int)
    requires m00 == p00 % PRIME && m11 == p11 % PRIME && m22 == p22 % PRIME
    requires m01 == p01 % PRIME && m12 == p12 % PRIME && m02 == p02 % PRIME
    ensures Felt(BeltSub(m00, m12), BeltSub(BeltAdd(m01, m12), m22), BeltAdd(BeltAdd(m02, m11), m22))
         == Residue(Triple(p00 - p12, p01 + p12 - p22, p02 + p11 + p22))
  {
    Combine(p00, p12, p01, p22, p02, p11);
  }

  lemma Combine(p00: int, p12: int, p01: int, p22: int, p02: int, p11: int)
    ensures BeltSub(p00 % PRIME, p12 % PRIME) == (p00 - p12) % PRIME
    ensures BeltSub(BeltAdd(p01 % PRIME, p12 % PRIME), p22 % PRIME) == (p01 + p12 - p22) % PRIME
    ensures BeltAdd(BeltAdd(p02 % PRIME, p11 % PRIME), p22 % PRIME) == (p02 + p11 + p22) % PRIME
  {
    ModSub(p00, p12 % PRIME, PRIME);
    ModSub(p00, p12, PRIME);
    ModAdd(p01, p12 % PRIME, PRIME);
    ModAdd(p01, p12, PRIME);
    ModSub(p01 + p12, p22 % PRIME, PRIME);
    ModSub(p01 + p12, p22, PRIME);
    ModAdd(p02, p11 % PRIME, PRIME);
    ModAdd(p02, p11, PRIME);
    ModAdd(p02 + p11, p22 % PRIME, PRIME);
    ModAdd(p02 + p11, p22, PRIME);
  }

  /* The integer product respects residues, because it is linear in each factor. */

  ghost function Linear(s: Triple, a: int, b: int, c: int): int { s.x0 * a + s.x1 * b + s.x2 * c }

  lemma LinearResidue(s: Triple, a: int, b: int, c: int)
    ensures Linear(Ints(Residue(s)), a, b, c) % PRIME == Linear(s, a, b, c) % PRIME
  {
    var k, l, m := s.x0 / PRIME, s.x1 / PRIME, s.x2 / PRIME;
    var x, y, z := s.x0 % PRIME, s.x1 % PRIME, s.x2 % PRIME;
    assert (k * PRIME + x) * a == x * a + (k * a) * PRIME;
    assert (l * PRIME + y) * b == y * b + (l * b) * PRIME;
    assert (m * PRIME + z) * c == z * c + (m * c) * PRIME;
    ModShift(x * a + y * b + z * c, k * a + l * b + m * c, PRIME);
  }

  ghost function LinearMul(s: Triple, t: Triple): Triple {
    Triple(Linear(s, t.x0, -t.x2, -t.x1), Linear(s, t.x1, t.x0 + t.x2, t.x1 - t.x2), Linear(s, t.x2, t.x1, t.x0 + t.x2))
  }

  lemma MulIsLinear(s: Triple, t: Triple)
    ensures IntMul(s, t) == LinearMul(s, t)
  {
  }

  lemma LinearMulResidue(s: Triple, t: Triple)
    ensures Residue(LinearMul(Ints(Residue(s)), t)) == Residue(LinearMul(s, t))
  {
    LinearResidue(s, t.x0, -t.x2, -t.x1);
    LinearResidue(s, t.x1, t.x0 + t.x2, t.x1 - t.x2);
    LinearResidue(s, t.x2, t.x1, t.x0 + t.x2);
  }

  lemma IntMulResidue(s: Triple, t: Triple)
    ensures Residue(IntMul(Ints(Residue(s)), t)) == Residue(IntMul(s, t))
  {
    LinearMulResidue(s, t);
    MulIsLinear(s, t);
    MulIsLinear(Ints(Residue(s)), t);
  }

  lemma MulResidueLeft(s: Triple, b: Felt)
    ensures FMul(Residue(s), b) == Residue(IntMul(s, Ints(b)))
  {
    MulResidue(Residue(s), b);
    IntMulResidue(s, Ints(b));
  }

  lemma IntMulCommutes(a: Triple, b: Triple)
    ensures IntMul(a, b) == IntMul(b, a)
  {
  }

  /* Multiplication by x, and the product as a combination of a, x a and x^2 a. */

  ghost function ByX(a: Triple): Triple { Triple(-a.x2, a.x0 + a.x2, a.x1) }

  /** k a + l b + m c */
  ghost function Mix(k: int, a: Triple, l: int, b: Triple, m: int, c: Triple): Triple {
    Triple(k * a.x0 + l * b.x0 + m * c.x0, k * a.x1 + l * b.x1 + m * c.x1, k * a.x2 + l * b.x2 + m * c.x2)
  }

  lemma MulIsMix(a: Triple, b: Triple)
    ensures IntMul(a, b) == Mix(b.x0, a, b.x1, ByX(a), b.x2, ByX(ByX(a)))
  {
    MixTerms(a.x0, a.x1, a.x2, b.x1, b.x2);
  }

  lemma MixTerms(x0: int, x1: int, x2: int, y1: int, y2: int)
    ensures y1 * -x2 == -(x2 * y1) && y2 * -x1 == -(x1 * y2)
    ensures y1 * (x0 + x2) == x0 * y1 + x2 * y1 && y2 * (-x2 + x1) == x1 * y2 - x2 * y2
    ensures y2 * (x0 + x2) == x0 * y2 + x2 * y2
  {
  }

  lemma ByXOfMix(k: int, a: Triple, l: int, b: Triple, m: int, c: Triple)
    ensures ByX(Mix(k, a, l, b, m, c)) == Mix(k, ByX(a), l, ByX(b), m, ByX(c))
  {
    Negated(k, a.x2);
    Negated(l, b.x2);
    Negated(m, c.x2);
    Distributed(k, a.x0, a.x2);
    Distributed(l, b.x0, b.x2);
    Distributed(m, c.x0, c.x2);
  }

  lemma Negated(k: int, x: int)
    ensures k * -x == -(k * x)
  {
  }

  lemma Distributed(k: int, x: int, y: int)
    ensures k * (x + y) == k * x + k * y
  {
  }

  /** x (a b) == (x a) b */
  lemma ByXOfMul(a: Triple, b: Triple)
    ensures ByX(IntMul(a, b)) == IntMul(ByX(a), b)
  {
    MulIsMix(a, b);
    MulIsMix(ByX(a), b);
    ByXOfMix(b.x0, a, b.x1, ByX(a), b.x2, ByX(ByX(a)));
  }

  lemma MixOfProducts(k: int, a: Triple, l: int, b: Triple, m: int, c: Triple, d: Triple)
    ensures IntMul(Mix(k, a, l, b, m, c), d) == Mix(k, IntMul(a, d), l, IntMul(b, d), m, IntMul(c, d))
  {
    MulIsLinear(Mix(k, a, l, b, m, c), d);
    MulIsLinear(a, d);
    MulIsLinear(b, d);
    MulIsLinear(c, d);
    LinearOfMix(k, a, l, b, m, c, d.x0, -d.x2, -d.x1);
    LinearOfMix(k, a, l, b, m, c, d.x1, d.x0 + d.x2, d.x1 - d.x2);
    LinearOfMix(k, a, l, b, m, c, d.x2, d.x1, d.x0 + d.x2);
  }

  lemma LinearOfMix(k: int, a: Triple, l: int, b: Triple, m: int, c: Triple, x: int, y: int, z: int)
    ensures Linear(Mix(k, a, l, b, m, c), x, y, z) == k * Linear(a, x, y, z) + l * Linear(b, x, y, z) + m * Linear(c, x, y, z)
  {
    MixTimes(k, a.x0, l, b.x0, m, c.x0, x);
    MixTimes(k, a.x1, l, b.x1, m, c.x1, y);
    MixTimes(k, a.x2, l, b.x2, m, c.x2, z);
    Distributed3(k, a.x0 * x, a.x1 * y, a.x2 * z);
    Distributed3(l, b.x0 * x, b.x1 * y, b.x2 * z);
    Distributed3(m, c.x0 * x, c.x1 * y, c.x2 * z);
  }

  lemma MixTimes(k: int, a: int, l: int, b: int, m: int, c: int, x: int)
    ensures (k * a + l * b + m * c) * x == k * (a * x) + l * (b * x) + m * (c * x)
  {
  }

  lemma Distributed3(k: int, x: int, y: int, z: int)
    ensures k * (x + y + z) == k * x + k * y + k * z
  {
  }

  lemma IntMulAssociates(a: Triple, b: Triple, c: Triple)
    ensures IntMul(IntMul(a, b), c) == IntMul(a, IntMul(b, c))
  {
    // (a b) c mixes a b, x (a b), x^2 (a b); (b c) a mixes b a, (x b) a, (x^2 b) a
    MulIsMix(IntMul(a, b), c);
    MulIsMix(b, c);
    IntMulCommutes(a, IntMul(b, c));
    MixOfProducts(c.x0, b, c.x1, ByX(b), c.x2, ByX(ByX(b)), a);
    IntMulCommutes(a, b);
    ByXOfMul(b, a);
    ByXOfMul(ByX(b), a);
  }

  /* The ring laws. */

  lemma FMulCommutes(a: Felt, b: Felt)
    ensures FMul(a, b) == FMul(b, a)
  {
    MulResidue(a, b);
    MulResidue(b, a);
    IntMulCommutes(Ints(a), Ints(b));
  }

  lemma FMulAssociates(a: Felt, b: Felt, c: Felt)
    ensures FMul(FMul(a, b), c) == FMul(a, FMul(b, c))
  {
    var x, y, z := Ints(a), Ints(b), Ints(c);
    MulResidue(a, b);
    MulResidueLeft(IntMul(x, y), c);
    MulResidue(b, c);
    FMulCommutes(a, FMul(b, c));
    MulResidueLeft(IntMul(y, z), a);
    IntMulCommutes(IntMul(y, z), x);
    IntMulAssociates(x, y, z);
  }

  lemma FMulOne(a: Felt)
    ensures FMul(a, FELT1) == a
  {
    MulResidue(a, FELT1);
    ModSmall(a.c0, PRIME);
    ModSmall(a.c1, PRIME);
    ModSmall(a.c2, PRIME);
  }

  ghost function IntAdd(a: Triple, b: Triple): Triple { Triple(a.x0 + b.x0, a.x1 + b.x1, a.x2 + b.x2) }

  lemma IntMulDistributes(a: Triple, b: Triple, c: Triple)
    ensures IntMul(IntAdd(a, b), c) == IntAdd(IntMul(a, c), IntMul(b, c))
  {
    MixOfProducts(1, a, 1, b, 0, a, c);
    assert Mix(1, a, 1, b, 0, a) == IntAdd(a, b);
  }

  lemma AddResidue(s: Triple, t: Triple)
    ensures FAdd(Residue(s), Residue(t)) == Residue(IntAdd(s, t))
  {
    ModAdd(s.x0, t.x0 % PRIME, PRIME);
    ModAdd(s.x0, t.x0, PRIME);
    ModAdd(s.x1, t.x1 % PRIME, PRIME);
    ModAdd(s.x1, t.x1, PRIME);
    ModAdd(s.x2, t.x2 % PRIME, PRIME);
    ModAdd(s.x2, t.x2, PRIME);
  }

  lemma SumTimes(b: Felt, c: Felt, a: Felt)
    ensures FMul(FAdd(b, c), a) == Residue(IntMul(IntAdd(Ints(b), Ints(c)), Ints(a)))
  {
    assert FAdd(b, c) == Residue(IntAdd(Ints(b), Ints(c)));
    MulResidueLeft(IntAdd(Ints(b), Ints(c)), a);
  }

  lemma SumOfProducts(b: Felt, c: Felt, a: Felt)
    ensures FAdd(FMul(b, a), FMul(c, a)) == Residue(IntAdd(IntMul(Ints(b), Ints(a)), IntMul(Ints(c), Ints(a))))
  {
    MulResidue(b, a);
    MulResidue(c, a);
    AddResidue(IntMul(Ints(b), Ints(a)), IntMul(Ints(c), Ints(a)));
  }

  lemma FMulDistributes(a: Felt, b: Felt, c: Felt)
    ensures FMul(a, FAdd(b, c)) == FAdd(FMul(a, b), FMul(a, c))
  {
    SumTimes(b, c, a);
    SumOfProducts(b, c, a);
    IntMulDistributes(Ints(b), Ints(c), Ints(a));
    FMulCommutes(a, FAdd(b, c));
    FMulCommutes(a, b);
    FMulCommutes(a, c);
  }

  lemma FeltIsRing()
    ensures IsRing(FeltRing())
  {
    forall a: Felt, b: Felt, c: Felt ensures Laws(FeltRing(), a, b, c) {
      FMulCommutes(a, b);
      FMulAssociates(a, b, c);
      FMulOne(a);
      FMulDistributes(a, b, c);
      FAddLaws(a, b, c);
    }
  }

  lemma FAddLaws(a: Felt, b: Felt, c: Felt)
    ensures FAdd(FAdd(a, b), c) == FAdd(a, FAdd(b, c)) && FAdd(a, b) == FAdd(b, a)
    ensures FAdd(a, FELT0) == a && FAdd(FSub(a, b), b) == a
  {
    AddLaws(a.c0, b.c0, c.c0);
    AddLaws(a.c1, b.c1, c.c1);
    AddLaws(a.c2, b.c2, c.c2);
  }
}

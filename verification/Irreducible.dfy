/** x^3 - x + 1 has no root in the base field. Multiplication in the extension is the remainder of the
    product of polynomials by it, so evaluation at r respects products up to multiples of its value c
    at r. Repeated squaring of x gives x^(2^32) and x^(2^64) explicitly; Fermat's theorem makes their
    values at r equal up to such multiples, and their difference is invertible, so c divides one. */
module Irreducible {
  import opened Modular
  import opened Rings
  import opened Polynomials
  import opened SeriesIdentities
  import opened Factors
  import opened Goldilocks
  import opened Primality
  import opened Inverses
  import opened Felts

  /** x^3 - x + 1, lowest degree first. */
  const IRD: seq<Belt> := [1, 18446744069414584320, 0, 1]

  const X: Felt := Felt(0, 1, 0)

  ghost function Limbs(a: Felt): seq<Belt> { [a.c0, a.c1, a.c2] }

  /* Multiplication is the remainder of the product. */

  ghost function IntLimbs(t: Triple): seq<int> { [t.x0, t.x1, t.x2] }

  ghost function Mod(x: int): Belt { x % PRIME }

  lemma ModIsHom()
    ensures IsHom(IntRing(), BeltRing(), Mod)
  {
    ModSmall(0, PRIME);
    forall x: int, y: int ensures Mod(x + y) == BeltAdd(Mod(x), Mod(y)) && Mod(x * y) == BeltMul(Mod(x), Mod(y)) {
      ModAdd(x, y % PRIME, PRIME);
      ModAdd(x, y, PRIME);
      MulOfSums(x, y);
    }
  }

  /** The quotient of the product by x^3 - x + 1: the product's coefficients from x^3 on. */
  ghost function IntCarry(a: Triple, b: Triple): seq<int> { [a.x1 * b.x2 + a.x2 * b.x1, a.x2 * b.x2] }

  ghost function Carry(a: Felt, b: Felt): seq<Belt> { Mapped(Mod, IntCarry(Ints(a), Ints(b))) }

  ghost function IntAt(p: seq<int>, i: nat): int { if i < |p| then p[i] else 0 }

  lemma {:induction false} PlusIs(p: seq<int>, q: seq<int>, r: seq<int>)
    requires |r| == if |p| > |q| then |p| else |q|
    requires forall i | 0 <= i < |r| :: r[i] == IntAt(p, i) + IntAt(q, i)
    ensures Plus(IntRing(), p, q) == r
    decreases |p|
  {
    if p != [] && q != [] {
      forall i | 0 <= i < |r| - 1 ensures r[1..][i] == IntAt(p[1..], i) + IntAt(q[1..], i) {
        assert r[i + 1] == IntAt(p, i + 1) + IntAt(q, i + 1);
      }
      PlusIs(p[1..], q[1..], r[1..]);
      assert r == [r[0]] + r[1..];
    } else {
      assert r == p + q;
    }
  }

  /** One row of the schoolbook product: c q + x t. */
  lemma RowIs(p: seq<int>, q: seq<int>, s: seq<int>, t: seq<int>, r: seq<int>)
    requires p != [] && s == Scale(IntRing(), p[0], q) && t == [0] + Times(IntRing(), p[1..], q)
    requires |r| == if |s| > |t| then |s| else |t|
    requires forall i | 0 <= i < |r| :: r[i] == IntAt(s, i) + IntAt(t, i)
    ensures Times(IntRing(), p, q) == r
  {
    PlusIs(s, t, r);
  }

  /** The product of two cubic-free lists, by rows. */
  lemma ProductIs(a0: int, a1: int, a2: int, b0: int, b1: int, b2: int)
    ensures Times(IntRing(), [a0, a1, a2], [b0, b1, b2])
         == [a0 * b0, a0 * b1 + a1 * b0, a0 * b2 + (a1 * b1 + a2 * b0), a1 * b2 + a2 * b1, a2 * b2]
  {
    var q := [b0, b1, b2];
    var t2, t1 := [a2 * b0, a2 * b1, a2 * b2], [a1 * b0, a1 * b1 + a2 * b0, a1 * b2 + a2 * b1, a2 * b2];
    assert [a0, a1, a2][1..] == [a1, a2] && [a1, a2][1..] == [a2] && [a2][1..] == [];
    RowIs([a2], q, [a2 * b0, a2 * b1, a2 * b2], [0], t2);
    RowIs([a1, a2], q, [a1 * b0, a1 * b1, a1 * b2], [0] + t2, t1);
    RowIs([a0, a1, a2], q, [a0 * b0, a0 * b1, a0 * b2], [0] + t1,
          [a0 * b0, a0 * b1 + a1 * b0, a0 * b2 + (a1 * b1 + a2 * b0), a1 * b2 + a2 * b1, a2 * b2]);
  }

  lemma CarriedIs(h0: int, h1: int)
    ensures Times(IntRing(), [h0, h1], [1, -1, 0, 1]) == [h0, h1 - h0, -h1, h0, h1]
  {
    var q := [1, -1, 0, 1];
    assert [h0, h1][1..] == [h1] && [h1][1..] == [];
    RowIs([h1], q, [h1, -h1, 0, h1], [0], [h1, -h1, 0, h1]);
    RowIs([h0, h1], q, [h0, -h0, 0, h0], [0, h1, -h1, 0, h1], [h0, h1 - h0, -h1, h0, h1]);
  }

  lemma IntProduct(a: Triple, b: Triple)
    ensures Times(IntRing(), IntLimbs(a), IntLimbs(b))
         == Plus(IntRing(), Times(IntRing(), IntCarry(a, b), [1, -1, 0, 1]), IntLimbs(IntMul(a, b)))
  {
    var h0, h1 := a.x1 * b.x2 + a.x2 * b.x1, a.x2 * b.x2;
    ProductIs(a.x0, a.x1, a.x2, b.x0, b.x1, b.x2);
    CarriedIs(h0, h1);
    PlusIs([h0, h1 - h0, -h1, h0, h1], IntLimbs(IntMul(a, b)), Times(IntRing(), IntLimbs(a), IntLimbs(b)));
  }

  /** The product of the polynomials is a multiple of x^3 - x + 1 plus the limbs of the product. */
  lemma FMulIsRemainder(a: Felt, b: Felt)
    ensures Times(BeltRing(), Limbs(a), Limbs(b))
         == Plus(BeltRing(), Times(BeltRing(), Carry(a, b), IRD), Limbs(FMul(a, b)))
  {
    var x, y := Ints(a), Ints(b);
    ModIsHom();
    IntProduct(x, y);
    MappedIdentity(IntRing(), BeltRing(), Mod, IntLimbs(x), IntLimbs(y), IntCarry(x, y), [1, -1, 0, 1], IntLimbs(IntMul(x, y)));
    MappedLimbs(a);
    MappedLimbs(b);
    MappedIrd();
    MappedTriple(IntMul(x, y));
    MulResidue(a, b);
  }

  lemma MappedTriple(t: Triple)
    ensures Mapped(Mod, IntLimbs(t)) == Limbs(Residue(t))
  {
    assert Mapped(Mod, IntLimbs(t)) == [Mod(t.x0), Mod(t.x1), Mod(t.x2)];
  }

  /** An identity p q = h f + l passes through a map of rings. */
  lemma MappedIdentity<T(!new), U>(R: Ring<T>, Q: Ring<U>, m: T -> U, p: seq<T>, q: seq<T>, h: seq<T>, f: seq<T>, l: seq<T>)
    requires IsHom(R, Q, m) && Times(R, p, q) == Plus(R, Times(R, h, f), l)
    ensures Times(Q, Mapped(m, p), Mapped(m, q)) == Plus(Q, Times(Q, Mapped(m, h), Mapped(m, f)), Mapped(m, l))
  {
    MappedTimes(R, Q, m, p, q);
    MappedTimes(R, Q, m, h, f);
    MappedPlus(R, Q, m, Times(R, h, f), l);
  }

  lemma MappedLimbs(a: Felt)
    ensures Mapped(Mod, IntLimbs(Ints(a))) == Limbs(a)
  {
    ModSmall(a.c0, PRIME);
    ModSmall(a.c1, PRIME);
    ModSmall(a.c2, PRIME);
    assert Mapped(Mod, IntLimbs(Ints(a))) == [Mod(a.c0), Mod(a.c1), Mod(a.c2)];
  }

  lemma MappedIrd()
    ensures Mapped(Mod, [1, -1, 0, 1]) == IRD
  {
    assert Mapped(Mod, [1, -1, 0, 1]) == [Mod(1), Mod(-1), Mod(0), Mod(1)];
  }

  /* Equality up to multiples of an element. */

  /** x and y differ by a multiple of c. */
  ghost predicate Same<T(!new)>(R: Ring<T>, c: T, x: T, y: T) {
    exists h: T :: x == R.add(y, R.mul(h, c))
  }

  lemma SameItself<T(!new)>(R: Ring<T>, c: T, x: T)
    requires IsRing(R)
    ensures Same(R, c, x, x)
  {
    Units(R, c);
    Units(R, x);
    assert x == R.add(x, R.mul(R.zero, c));
  }

  lemma SameTrans<T(!new)>(R: Ring<T>, c: T, x: T, y: T, z: T)
    requires IsRing(R) && Same(R, c, x, y) && Same(R, c, y, z)
    ensures Same(R, c, x, z)
  {
    var h :| x == R.add(y, R.mul(h, c));
    var k :| y == R.add(z, R.mul(k, c));
    Add3(R, z, R.mul(k, c), R.mul(h, c));
    Distribute(R, c, k, h);
    assert x == R.add(z, R.mul(R.add(k, h), c));
  }

  lemma SameSub<T(!new)>(R: Ring<T>, c: T, x: T, y: T, z: T)
    requires IsRing(R) && Same(R, c, x, z) && Same(R, c, y, z)
    ensures Same(R, c, R.sub(x, y), R.zero)
  {
    var h :| x == R.add(z, R.mul(h, c));
    var k :| y == R.add(z, R.mul(k, c));
    SubOfSums(R, z, R.mul(h, c), z, R.mul(k, c));
    MulSub(R, c, h, k);
    Units(R, z);
    assert R.sub(x, y) == R.add(R.zero, R.mul(R.sub(h, k), c));
  }

  lemma SameTimes<T(!new)>(R: Ring<T>, c: T, x: T, y: T, w: T)
    requires IsRing(R) && Same(R, c, x, y)
    ensures Same(R, c, R.mul(x, w), R.mul(y, w))
  {
    var h :| x == R.add(y, R.mul(h, c));
    Distribute(R, w, y, R.mul(h, c));
    Mul3(R, h, c, w);
    Mul3(R, h, w, c);
    assert R.mul(x, w) == R.add(R.mul(y, w), R.mul(R.mul(h, w), c));
  }

  /** v respects products up to multiples of c. */
  ghost predicate Respects<T(!new), U(!new)>(R: Ring<T>, B: Ring<U>, c: U, v: T -> U) {
    forall a: T, b: T {:trigger v(R.mul(a, b))} :: Same(B, c, v(R.mul(a, b)), B.mul(v(a), v(b)))
  }

  lemma {:induction false} ValueOfPower<T(!new), U(!new)>(R: Ring<T>, B: Ring<U>, c: U, v: T -> U, x: T, n: nat)
    requires IsRing(B) && Respects(R, B, c, v) && v(R.one) == B.one
    ensures Same(B, c, v(Pow(R, x, n)), Pow(B, v(x), n))
  {
    if n == 0 {
      SameItself(B, c, B.one);
    } else {
      var p, q := v(Pow(R, x, n - 1)), Pow(B, v(x), n - 1);
      ValueOfPower(R, B, c, v, x, n - 1);
      SameTimes(B, c, p, q, v(x));
      assert Same(B, c, v(R.mul(Pow(R, x, n - 1), x)), B.mul(p, v(x)));
      SameTrans(B, c, v(Pow(R, x, n)), B.mul(p, v(x)), B.mul(q, v(x)));
    }
  }

  /** If two powers of x have equal values and their difference is invertible, then c divides one. */
  lemma DividesOne<T(!new), U(!new)>(R: Ring<T>, B: Ring<U>, c: U, v: T -> U, x: T, y: U, m: nat, n: nat, d: T, w: T)
    requires IsRing(B) && Respects(R, B, c, v) && v(R.one) == B.one && v(x) == y
    requires Pow(B, y, m) == Pow(B, y, n)
    requires v(d) == B.sub(v(Pow(R, x, n)), v(Pow(R, x, m))) && R.mul(d, w) == R.one
    ensures Same(B, c, B.one, B.zero)
  {
    ValueOfPower(R, B, c, v, x, m);
    ValueOfPower(R, B, c, v, x, n);
    SameSub(B, c, v(Pow(R, x, n)), v(Pow(R, x, m)), Pow(B, y, m));
    SameTimes(B, c, v(d), B.zero, v(w));
    Units(B, v(w));
    assert Same(B, c, v(R.mul(d, w)), B.mul(v(d), v(w)));
    SameTrans(B, c, B.one, B.mul(v(d), v(w)), B.zero);
  }

  /* Values at r. */

  ghost function Value(r: Belt, a: Felt): Belt { Eval(BeltRing(), Limbs(a), r) }

  lemma RemainderValue<T(!new)>(R: Ring<T>, p: seq<T>, q: seq<T>, h: seq<T>, f: seq<T>, l: seq<T>, r: T)
    requires IsRing(R) && Times(R, p, q) == Plus(R, Times(R, h, f), l)
    ensures Same(R, Eval(R, f, r), Eval(R, l, r), R.mul(Eval(R, p, r), Eval(R, q, r)))
  {
    EvalTimes(R, p, q, r);
    EvalTimes(R, h, f, r);
    EvalPlus(R, Times(R, h, f), l, r);
    var k, c, v := Eval(R, h, r), Eval(R, f, r), Eval(R, l, r);
    var kc := R.mul(k, c);
    NegMul(R, k, c);
    Add3(R, kc, v, v);
    SubIs(R, R.add(kc, v), kc, v);
    assert v == R.add(R.add(kc, v), R.mul(Neg(R, k), c));
  }

  lemma ValueRespects(r: Belt)
    ensures Respects(FeltRing(), BeltRing(), Eval(BeltRing(), IRD, r), (a: Felt) => Value(r, a))
  {
    BeltIsRing();
    forall a: Felt, b: Felt
      ensures Same(BeltRing(), Eval(BeltRing(), IRD, r), Value(r, FMul(a, b)), BeltMul(Value(r, a), Value(r, b)))
    {
      FMulIsRemainder(a, b);
      RemainderValue(BeltRing(), Limbs(a), Limbs(b), Carry(a, b), IRD, Limbs(FMul(a, b)), r);
    }
  }

  lemma ThreeValue<T(!new)>(R: Ring<T>, a0: T, a1: T, a2: T, r: T)
    requires IsRing(R)
    ensures Eval(R, [a0, a1, a2], r) == R.add(a0, R.mul(r, R.add(a1, R.mul(r, a2))))
  {
    assert [a0, a1, a2][1..] == [a1, a2] && [a1, a2][1..] == [a2] && [a2][1..] == [];
    Units(R, r);
    Units(R, a2);
    assert Eval(R, [a2], r) == a2;
  }

  lemma ValueOfDifference<T(!new)>(R: Ring<T>, a0: T, a1: T, a2: T, b0: T, b1: T, b2: T, r: T)
    requires IsRing(R)
    ensures Eval(R, [R.sub(a0, b0), R.sub(a1, b1), R.sub(a2, b2)], r) == R.sub(Eval(R, [a0, a1, a2], r), Eval(R, [b0, b1, b2], r))
  {
    ThreeValue(R, a0, a1, a2, r);
    ThreeValue(R, b0, b1, b2, r);
    ThreeValue(R, R.sub(a0, b0), R.sub(a1, b1), R.sub(a2, b2), r);
    LinearDifference(R, a1, a2, b1, b2, r);
    LinearDifference(R, a0, R.add(a1, R.mul(r, a2)), b0, R.add(b1, R.mul(r, b2)), r);
  }

  lemma LinearDifference<T(!new)>(R: Ring<T>, a: T, u: T, b: T, v: T, r: T)
    requires IsRing(R)
    ensures R.add(R.sub(a, b), R.mul(r, R.sub(u, v))) == R.sub(R.add(a, R.mul(r, u)), R.add(b, R.mul(r, v)))
  {
    MulSub(R, r, u, v);
    SubOfSums(R, a, R.mul(r, u), b, R.mul(r, v));
  }

  lemma ValueOfX(r: Belt)
    ensures Value(r, X) == r && Value(r, FELT1) == 1
  {
    var B := BeltRing();
    BeltIsRing();
    ThreeValue(B, 0, 1, 0, r);
    ThreeValue(B, 1, 0, 0, r);
    Units(B, r);
    Units(B, 1);
  }

  /* Repeated squaring of x. */

  /** R squares its elements as the extension does. */
  ghost predicate SquaresAsFelts(R: Ring<Felt>) {
    forall a: Felt {:trigger R.mul(a, a)} :: R.mul(a, a) == FMul(a, a)
  }

  /** A square, on the limbs, with the quotients by the prime. */
  lemma SquareIs(a0: Belt, a1: Belt, a2: Belt, b0: Belt, b1: Belt, b2: Belt, k0: int, k1: int, k2: int)
    requires a0 * a0 - 2 * (a1 * a2) == b0 + k0 * 18446744069414584321
    requires 2 * (a0 * a1) + 2 * (a1 * a2) - a2 * a2 == b1 + k1 * 18446744069414584321
    requires 2 * (a0 * a2) + a1 * a1 + a2 * a2 == b2 + k2 * 18446744069414584321
    ensures FMul(Felt(a0, a1, a2), Felt(a0, a1, a2)) == Felt(b0, b1, b2)
  {
    var t := IntMul(Triple(a0, a1, a2), Triple(a0, a1, a2));
    assert t == Triple(b0 + k0 * PRIME, b1 + k1 * PRIME, b2 + k2 * PRIME);
    DivModUnique(t.x0, PRIME, k0, b0);
    DivModUnique(t.x1, PRIME, k1, b1);
    DivModUnique(t.x2, PRIME, k2, b2);
    MulResidue(Felt(a0, a1, a2), Felt(a0, a1, a2));
  }

  lemma Square<T(!new)>(R: Ring<T>, x: T, e: nat, a: T, b: T)
    requires IsRing(R) && a == Pow(R, x, e) && b == R.mul(a, a)
    ensures b == Pow(R, x, 2 * e)
  {
    PowAdd(R, x, e, e);
  }

  lemma Squares0(R: Ring<Felt>, x: Felt, e: nat)
    requires IsRing(R) && SquaresAsFelts(R) && Felt(0, 1, 0) == Pow(R, x, e)
    ensures Felt(0x10, 0xfffffffeffffffe5, 0x15) == Pow(R, x, 16 * e)
  {
    Square(R, x, 1 * e, Felt(0, 1, 0), Felt(0, 0, 1)) by {
      SquareIs(0, 1, 0, 0, 0, 1,
               0, 0, 0);
    }
    Square(R, x, 2 * e, Felt(0, 0, 1), Felt(0, 0xffffffff00000000, 1)) by {
      SquareIs(0, 0, 1, 0, 0xffffffff00000000, 1,
               0, -1, 0);
    }
    Square(R, x, 4 * e, Felt(0, 0xffffffff00000000, 1), Felt(2, 0xfffffffefffffffe, 2)) by {
      SquareIs(0, 0xffffffff00000000, 1, 2, 0xfffffffefffffffe, 2,
               -2, 1, 0xfffffffeffffffff);
    }
    Square(R, x, 8 * e, Felt(2, 0xfffffffefffffffe, 2), Felt(0x10, 0xfffffffeffffffe5, 0x15)) by {
      SquareIs(2, 0xfffffffefffffffe, 2, 0x10, 0xfffffffeffffffe5, 0x15,
               -4, 7, 0xfffffffefffffffb);
    }
  }

  lemma Squares1(R: Ring<Felt>, x: Felt, e: nat)
    requires IsRing(R) && SquaresAsFelts(R) && Felt(0x10, 0xfffffffeffffffe5, 0x15) == Pow(R, x, e)
    ensures Felt(0xf11876f105da1c95, 0x7b5e68fd3c733c2d, 0xd515f34031904d3d) == Pow(R, x, 16 * e)
  {
    Square(R, x, 1 * e, Felt(0x10, 0xfffffffeffffffe5, 0x15), Felt(0x598, 0xfffffffefffff630, 0x769)) by {
      SquareIs(0x10, 0xfffffffeffffffe5, 0x15, 0x598, 0xfffffffefffff630, 0x769,
               -0x2a, 0x49, 0xfffffffeffffffc9);
    }
    Square(R, x, 2 * e, Felt(0x598, 0xfffffffefffff630, 0x769), Felt(0xb0c5b2, 0xfffffffefec9c94e, 0xea2c62)) by {
      SquareIs(0x598, 0xfffffffefffff630, 0x769, 0xb0c5b2, 0xfffffffefec9c94e, 0xea2c62,
               -0xed2, 0x1a01, 0xfffffffeffffec5f);
    }
    Square(R, x, 4 * e, Felt(0xb0c5b2, 0xfffffffefec9c94e, 0xea2c62), Felt(0x2b197fcf6d8d0, 0xfffb45d7efe73285, 0x3918464c262f5)) by {
      SquareIs(0xb0c5b2, 0xfffffffefec9c94e, 0xea2c62, 0x2b197fcf6d8d0, 0xfffb45d7efe73285, 0x3918464c262f5,
               -0x1d458c4, 0x335e427, 0xfffffffefd93929b);
    }
    Square(R, x, 8 * e, Felt(0x2b197fcf6d8d0, 0xfffb45d7efe73285, 0x3918464c262f5), Felt(0xf11876f105da1c95, 0x7b5e68fd3c733c2d, 0xd515f34031904d3d)) by {
      SquareIs(0x2b197fcf6d8d0, 0xfffb45d7efe73285, 0x3918464c262f5, 0xf11876f105da1c95, 0x7b5e68fd3c733c2d, 0xd515f34031904d3d,
               -0x722dfcb42fa27, 0xc85f0d34f540c, 0xfff68be72dbca875);
    }
  }

  lemma Squares2(R: Ring<Felt>, x: Felt, e: nat)
    requires IsRing(R) && SquaresAsFelts(R) && Felt(0xf11876f105da1c95, 0x7b5e68fd3c733c2d, 0xd515f34031904d3d) == Pow(R, x, e)
    ensures Felt(0xe96af87954e0fd5b, 0x88712c1d996f0443, 0x7e652104ac8caac) == Pow(R, x, 16 * e)
  {
    Square(R, x, 1 * e, Felt(0xf11876f105da1c95, 0x7b5e68fd3c733c2d, 0xd515f34031904d3d), Felt(0x30b41b05c87dade2, 0x60332ae59b9b888e, 0x10aac7970d2784ff)) by {
      SquareIs(0xf11876f105da1c95, 0x7b5e68fd3c733c2d, 0xd515f34031904d3d, 0x30b41b05c87dade2, 0x60332ae59b9b888e, 0x10aac7970d2784ff,
               0x15aecfa2acb98165, 0x104620fffee265abd, 0x27e2d727fb01c9c75);
    }
    Square(R, x, 2 * e, Felt(0x30b41b05c87dade2, 0x60332ae59b9b888e, 0x10aac7970d2784ff), Felt(0x5ef07b978d4cc111, 0x6442e9c8fc8465c7, 0xd7fcb2a3151555bc)) by {
      SquareIs(0x30b41b05c87dade2, 0x60332ae59b9b888e, 0x10aac7970d2784ff, 0x5ef07b978d4cc111, 0x6442e9c8fc8465c7, 0xd7fcb2a3151555bc,
               -0x342b67a946e0071, 0x300b80cbee7b25d4, 0x2b93b3cd290d4745);
    }
    Square(R, x, 4 * e, Felt(0x5ef07b978d4cc111, 0x6442e9c8fc8465c7, 0xd7fcb2a3151555bc), Felt(0x83034304b00dfc88, 0x3fb1b99a32ec10a1, 0xf41aee07a0458de4)) by {
      SquareIs(0x5ef07b978d4cc111, 0x6442e9c8fc8465c7, 0xd7fcb2a3151555bc, 0x83034304b00dfc88, 0x3fb1b99a32ec10a1, 0xf41aee07a0458de4,
               -0x85f8d7ade90cfbaf, 0x3d5168cfbd6ac205, 0x17db2232d42b24fd5);
    }
    Square(R, x, 8 * e, Felt(0x83034304b00dfc88, 0x3fb1b99a32ec10a1, 0xf41aee07a0458de4), Felt(0xe96af87954e0fd5b, 0x88712c1d996f0443, 0x7e652104ac8caac)) by {
      SquareIs(0x83034304b00dfc88, 0x3fb1b99a32ec10a1, 0xf41aee07a0458de4, 0xe96af87954e0fd5b, 0x88712c1d996f0443, 0x7e652104ac8caac,
               -0x366bd9b8ab8dede3, -0x2e19a4c2837a5b7b, 0x1f276155e31184fe5);
    }
  }

  lemma Squares3(R: Ring<Felt>, x: Felt, e: nat)
    requires IsRing(R) && SquaresAsFelts(R) && Felt(0xe96af87954e0fd5b, 0x88712c1d996f0443, 0x7e652104ac8caac) == Pow(R, x, e)
    ensures Felt(0x55a4213374dcfe7, 0x8899259367ef64cc, 0x54fd36703d590d8b) == Pow(R, x, 16 * e)
  {
    Square(R, x, 1 * e, Felt(0xe96af87954e0fd5b, 0x88712c1d996f0443, 0x7e652104ac8caac), Felt(0xedde4d2eb089e730, 0x3b686e0da4397e66, 0xee0b22888c5665be)) by {
      SquareIs(0xe96af87954e0fd5b, 0x88712c1d996f0443, 0x7e652104ac8caac, 0xedde4d2eb089e730, 0x3b686e0da4397e66, 0xee0b22888c5665be,
               0xcc6831c19cdba121, 0x100fd546e53c389b4, 0x575eb40f9161b5a3);
    }
    Square(R, x, 2 * e, Felt(0xedde4d2eb089e730, 0x3b686e0da4397e66, 0xee0b22888c5665be), Felt(0x74d3e071bcbcc92b, 0xffb051357ee7ae08, 0x5b593d40929c6d7c)) by {
      SquareIs(0xedde4d2eb089e730, 0x3b686e0da4397e66, 0xee0b22888c5665be, 0x74d3e071bcbcc92b, 0xffb051357ee7ae08, 0x5b593d40929c6d7c,
               0x6e8a0450e5cec46d, -0x76d459528b9164, 0x2a5800ad2aaaea76c);
    }
    Square(R, x, 4 * e, Felt(0x74d3e071bcbcc92b, 0xffb051357ee7ae08, 0x5b593d40929c6d7c), Felt(0xaa77ff6f9d73f53, 0x35012102a4b7573c, 0x78e199761e0b948a)) by {
      SquareIs(0x74d3e071bcbcc92b, 0xffb051357ee7ae08, 0x5b593d40929c6d7c, 0xaa77ff6f9d73f53, 0x35012102a4b7573c, 0x78e199761e0b948a,
               -0x8128e9ed30fe19da, 0x17f40129f8e964324, 0x1735960ac2b3f9f6e);
    }
    Square(R, x, 8 * e, Felt(0xaa77ff6f9d73f53, 0x35012102a4b7573c, 0x78e199761e0b948a), Felt(0x55a4213374dcfe7, 0x8899259367ef64cc, 0x54fd36703d590d8b)) by {
      SquareIs(0xaa77ff6f9d73f53, 0x35012102a4b7573c, 0x78e199761e0b948a, 0x55a4213374dcfe7, 0x8899259367ef64cc, 0x54fd36703d590d8b,
               -0x319cf6e375e947ae, -0x29c59286db1b998, 0x4e1d8d870c9ee065);
    }
  }

  lemma Squares4(R: Ring<Felt>, x: Felt, e: nat)
    requires IsRing(R) && SquaresAsFelts(R) && Felt(0x55a4213374dcfe7, 0x8899259367ef64cc, 0x54fd36703d590d8b) == Pow(R, x, e)
    ensures Felt(0xbaa7c79d21d2060e, 0x99a7e43bc60e567b, 0x511f04852a99f3b2) == Pow(R, x, 16 * e)
  {
    Square(R, x, 1 * e, Felt(0x55a4213374dcfe7, 0x8899259367ef64cc, 0x54fd36703d590d8b), Felt(0x27985372f881102c, 0x97bf4f23d2357667, 0xeb86b5758803cbc5)) by {
      SquareIs(0x55a4213374dcfe7, 0x8899259367ef64cc, 0x54fd36703d590d8b, 0x27985372f881102c, 0x97bf4f23d2357667, 0xeb86b5758803cbc5,
               -0x5a96130e78bfdb43, 0x4431e0f1023b1dd0, 0x68a80bc3402cdb1e);
    }
    Square(R, x, 2 * e, Felt(0x27985372f881102c, 0x97bf4f23d2357667, 0xeb86b5758803cbc5), Felt(0xa8a43b5b55ffea32, 0x44dc36e0bc326b41, 0x31b6e6d5dadb0674)) by {
      SquareIs(0x27985372f881102c, 0x97bf4f23d2357667, 0xeb86b5758803cbc5, 0xa8a43b5b55ffea32, 0x44dc36e0bc326b41, 0x31b6e6d5dadb0674,
               -0x111192aa34f1bf728, 0x6d7936e3e672b714, 0x17b7f2b2b5eaec84e);
    }
    Square(R, x, 4 * e, Felt(0xa8a43b5b55ffea32, 0x44dc36e0bc326b41, 0x31b6e6d5dadb0674), Felt(0x8de67836f84d8b00, 0x192a19b4cb4a0a89, 0xb4e00419aea347a1)) by {
      SquareIs(0xa8a43b5b55ffea32, 0x44dc36e0bc326b41, 0x31b6e6d5dadb0674, 0x8de67836f84d8b00, 0x192a19b4cb4a0a89, 0xb4e00419aea347a1,
               0x545944f5819fa7dc, 0x6bd08d603f454933, 0x5dad19ff3ec458c0);
    }
    Square(R, x, 8 * e, Felt(0x8de67836f84d8b00, 0x192a19b4cb4a0a89, 0xb4e00419aea347a1), Felt(0xbaa7c79d21d2060e, 0x99a7e43bc60e567b, 0x511f04852a99f3b2)) by {
      SquareIs(0x8de67836f84d8b00, 0x192a19b4cb4a0a89, 0xb4e00419aea347a1, 0xbaa7c79d21d2060e, 0x99a7e43bc60e567b, 0x511f04852a99f3b2,
               0x2b1871475c37bba0, -0x4056db9053d5056a, 0x14ac97aa9b0bc92e0);
    }
  }

  lemma Squares5(R: Ring<Felt>, x: Felt, e: nat)
    requires IsRing(R) && SquaresAsFelts(R) && Felt(0xbaa7c79d21d2060e, 0x99a7e43bc60e567b, 0x511f04852a99f3b2) == Pow(R, x, e)
    ensures Felt(0xcce650b86b78b048, 0x9b779fcb61b483f, 0xa808d60525b4741d) == Pow(R, x, 16 * e)
  {
    Square(R, x, 1 * e, Felt(0xbaa7c79d21d2060e, 0x99a7e43bc60e567b, 0x511f04852a99f3b2), Felt(0x947007d3d9fd1afb, 0x85e5591c6bae14d9, 0xeac7f66b81d5e7e5)) by {
      SquareIs(0xbaa7c79d21d2060e, 0x99a7e43bc60e567b, 0x511f04852a99f3b2, 0x947007d3d9fd1afb, 0x85e5591c6bae14d9, 0xeac7f66b81d5e7e5,
               0x26b6c18251fbc8bd, 0x127be3639462181e3, 0xec3a291583df5e70);
    }
    Square(R, x, 2 * e, Felt(0x947007d3d9fd1afb, 0x85e5591c6bae14d9, 0xeac7f66b81d5e7e5), Felt(0xbbde74e2387ec0a1, 0xcc92ca3d6d84a455, 0x6f7908239acdb476)) by {
      SquareIs(0x947007d3d9fd1afb, 0x85e5591c6bae14d9, 0xeac7f66b81d5e7e5, 0xbbde74e2387ec0a1, 0xcc92ca3d6d84a455, 0x6f7908239acdb476,
               -0x9f86b92a8db3b8c2, 0xb98ca877e0082892, 0x22d9ef8ff44333d62);
    }
    Square(R, x, 4 * e, Felt(0xbbde74e2387ec0a1, 0xcc92ca3d6d84a455, 0x6f7908239acdb476), Felt(0xc0558d42f130f5fd, 0xe75a1ce6681529b0, 0x286062fd3692e04c)) by {
      SquareIs(0xbbde74e2387ec0a1, 0xcc92ca3d6d84a455, 0x6f7908239acdb476, 0xc0558d42f130f5fd, 0xe75a1ce6681529b0, 0x286062fd3692e04c,
               -0x2849fb1543441718, 0x1ade089bbb83be932, 0x177a1025f125a46bd);
    }
    Square(R, x, 8 * e, Felt(0xc0558d42f130f5fd, 0xe75a1ce6681529b0, 0x286062fd3692e04c), Felt(0xcce650b86b78b048, 0x9b779fcb61b483f, 0xa808d60525b4741d)) by {
      SquareIs(0xc0558d42f130f5fd, 0xe75a1ce6681529b0, 0x286062fd3692e04c, 0xcce650b86b78b048, 0x9b779fcb61b483f, 0xa808d60525b4741d,
               0x478610f37780cb41, 0x19e3de8d37e93a791, 0x1141d9427974b49ab);
    }
  }

  lemma Squares6(R: Ring<Felt>, x: Felt, e: nat)
    requires IsRing(R) && SquaresAsFelts(R) && Felt(0xcce650b86b78b048, 0x9b779fcb61b483f, 0xa808d60525b4741d) == Pow(R, x, e)
    ensures Felt(0x87d2fdbab791d53c, 0x2dccd820a50df3dd, 0x49fc8e0d16161411) == Pow(R, x, 16 * e)
  {
    Square(R, x, 1 * e, Felt(0xcce650b86b78b048, 0x9b779fcb61b483f, 0xa808d60525b4741d), Felt(0x378fc8a3ee112d0f, 0x2590e1ee5602b8d5, 0x21b0f59e17f78b7c)) by {
      SquareIs(0xcce650b86b78b048, 0x9b779fcb61b483f, 0xa808d60525b4741d, 0x378fc8a3ee112d0f, 0x2590e1ee5602b8d5, 0x21b0f59e17f78b7c,
               0x973e6409349270eb, -0x51fc372813764a68, 0x17ba6723a1b816f9e);
    }
    Square(R, x, 2 * e, Felt(0x378fc8a3ee112d0f, 0x2590e1ee5602b8d5, 0x21b0f59e17f78b7c), Felt(0x13d1ee8748e4eef1, 0xcf9cc4074f529b1d, 0xe26eab91dbb2e818)) by {
      SquareIs(0x378fc8a3ee112d0f, 0x2590e1ee5602b8d5, 0x21b0f59e17f78b7c, 0x13d1ee8748e4eef1, 0xcf9cc4074f529b1d, 0xe26eab91dbb2e818,
               0x22bcf6c66a6fb98, 0x15c2a3b9cd5c6821, 0x18922eff52dfcdb9);
    }
    Square(R, x, 4 * e, Felt(0x13d1ee8748e4eef1, 0xcf9cc4074f529b1d, 0xe26eab91dbb2e818), Felt(0xb5842c67834239a7, 0xf8427e2505f2a085, 0x9b0c2b874acdf83c)) by {
      SquareIs(0x13d1ee8748e4eef1, 0xcf9cc4074f529b1d, 0xe26eab91dbb2e818, 0xb5842c67834239a7, 0xf8427e2505f2a085, 0x9b0c2b874acdf83c,
               -0x16dbb758f61eae036, 0xc7227a4cced17b45, 0x193b647eb34b3487d);
    }
    Square(R, x, 8 * e, Felt(0xb5842c67834239a7, 0xf8427e2505f2a085, 0x9b0c2b874acdf83c), Felt(0x87d2fdbab791d53c, 0x2dccd820a50df3dd, 0x49fc8e0d16161411)) by {
      SquareIs(0xb5842c67834239a7, 0xf8427e2505f2a085, 0x9b0c2b874acdf83c, 0x87d2fdbab791d53c, 0x2dccd820a50df3dd, 0x49fc8e0d16161411,
               -0xac03f461e038f8a3, 0x22edec333b48153f1, 0x22a87f2dce5055560);
    }
  }

  lemma Squares7(R: Ring<Felt>, x: Felt, e: nat)
    requires IsRing(R) && SquaresAsFelts(R) && Felt(0x87d2fdbab791d53c, 0x2dccd820a50df3dd, 0x49fc8e0d16161411) == Pow(R, x, e)
    ensures Felt(0x3bdaf93b311cc49f, 0xc6c5793f25c050f8, 0xbee725f0438a3f42) == Pow(R, x, 16 * e)
  {
    Square(R, x, 1 * e, Felt(0x87d2fdbab791d53c, 0x2dccd820a50df3dd, 0x49fc8e0d16161411), Felt(0x87ff24e7b78193eb, 0xf7c46e4e294e045, 0xbaaa21f897d0d5c1)) by {
      SquareIs(0x87d2fdbab791d53c, 0x2dccd820a50df3dd, 0x49fc8e0d16161411, 0x87ff24e7b78193eb, 0xf7c46e4e294e045, 0xbaaa21f897d0d5c1,
               0x2d970420502266cb, 0x35b0ba03898f738c, 0x6c15fce4786cd221);
    }
    Square(R, x, 2 * e, Felt(0x87ff24e7b78193eb, 0xf7c46e4e294e045, 0xbaaa21f897d0d5c1), Felt(0xd8785f60e9061a19, 0x7e96ca5b626d53cd, 0x4081fd29a7a07ca9)) by {
      SquareIs(0x87ff24e7b78193eb, 0xf7c46e4e294e045, 0xbaaa21f897d0d5c1, 0xd8785f60e9061a19, 0x7e96ca5b626d53cd, 0x4081fd29a7a07ca9,
               0x31a9eb08417aa596, -0x61128d6e424e1896, 0x14f5efba8e42127c7);
    }
    Square(R, x, 4 * e, Felt(0xd8785f60e9061a19, 0x7e96ca5b626d53cd, 0x4081fd29a7a07ca9), Felt(0x8b7e470fa8d620a, 0xc03e77c66b77cacb, 0x51fcdaa371c50bb4)) by {
      SquareIs(0xd8785f60e9061a19, 0x7e96ca5b626d53cd, 0x4081fd29a7a07ca9, 0x8b7e470fa8d620a, 0xc03e77c66b77cacb, 0x51fcdaa371c50bb4,
               0x773f6608af8077bd, 0x105a0341ba0574c58, 0xbbf20dbf58c65b08);
    }
    Square(R, x, 8 * e, Felt(0x8b7e470fa8d620a, 0xc03e77c66b77cacb, 0x51fcdaa371c50bb4), Felt(0x3bdaf93b311cc49f, 0xc6c5793f25c050f8, 0xbee725f0438a3f42)) by {
      SquareIs(0x8b7e470fa8d620a, 0xc03e77c66b77cacb, 0x51fcdaa371c50bb4, 0x3bdaf93b311cc49f, 0xc6c5793f25c050f8, 0xbee725f0438a3f42,
               -0x7ad748c842ddbbb3, 0x6df966f1a93c9bcc, 0xb0355680b8086e57);
    }
  }

  lemma Squares8(R: Ring<Felt>, x: Felt, e: nat)
    requires IsRing(R) && SquaresAsFelts(R) && Felt(0x3bdaf93b311cc49f, 0xc6c5793f25c050f8, 0xbee725f0438a3f42) == Pow(R, x, e)
    ensures Felt(0x2c9631331a85dcb0, 0x3efb57fc456e774, 0x837a08922b8f81f8) == Pow(R, x, 16 * e)
  {
    Square(R, x, 1 * e, Felt(0x3bdaf93b311cc49f, 0xc6c5793f25c050f8, 0xbee725f0438a3f42), Felt(0xaef75b9b5ff7964a, 0x470ad11434dea053, 0xf61cdc304b0c377e)) by {
      SquareIs(0x3bdaf93b311cc49f, 0xc6c5793f25c050f8, 0xbee725f0438a3f42, 0xaef75b9b5ff7964a, 0x470ad11434dea053, 0xf61cdc304b0c377e,
               -0x11a756917228f8b69, 0xf70b377d3ddbf699, 0x181f71dc87260e9c2);
    }
    Square(R, x, 2 * e, Felt(0xaef75b9b5ff7964a, 0x470ad11434dea053, 0xf61cdc304b0c377e), Felt(0xcd7850fd441098c, 0x590a7c28a2da588b, 0x678c45d57fa13d2d)) by {
      SquareIs(0xaef75b9b5ff7964a, 0x470ad11434dea053, 0xf61cdc304b0c377e, 0xcd7850fd441098c, 0x590a7c28a2da588b, 0x678c45d57fa13d2d,
               -0x11039edceb0bb7dc, -0x2e6ae18ea204adf, 0x250bd52040dcdbc98);
    }
    Square(R, x, 4 * e, Felt(0xcd7850fd441098c, 0x590a7c28a2da588b, 0x678c45d57fa13d2d), Felt(0xb506c64dd20bb47c, 0x60ef4adec45299ac, 0x7f687eb61abece4)) by {
      SquareIs(0xcd7850fd441098c, 0x590a7c28a2da588b, 0x678c45d57fa13d2d, 0xb506c64dd20bb47c, 0x60ef4adec45299ac, 0x7f687eb61abece4,
               -0x47631a0ab063eeca, 0x2714beb6d3e0e951, 0x533df79ea46a7bb6);
    }
    Square(R, x, 8 * e, Felt(0xb506c64dd20bb47c, 0x60ef4adec45299ac, 0x7f687eb61abece4), Felt(0x2c9631331a85dcb0, 0x3efb57fc456e774, 0x837a08922b8f81f8)) by {
      SquareIs(0xb506c64dd20bb47c, 0x60ef4adec45299ac, 0x7f687eb61abece4, 0x2c9631331a85dcb0, 0x3efb57fc456e774, 0x837a08922b8f81f8,
               0x79facbadb521e500, 0x8edfe1567f01867c, 0x3036c8c3edf2d188);
    }
  }

  lemma Squares9(R: Ring<Felt>, x: Felt, e: nat)
    requires IsRing(R) && SquaresAsFelts(R) && Felt(0x2c9631331a85dcb0, 0x3efb57fc456e774, 0x837a08922b8f81f8) == Pow(R, x, e)
    ensures Felt(0x3c7b221de2e3655e, 0x3bc7210279f923f5, 0x1425cb1e99cc3a40) == Pow(R, x, 16 * e)
  {
    Square(R, x, 1 * e, Felt(0x2c9631331a85dcb0, 0x3efb57fc456e774, 0x837a08922b8f81f8), Felt(0x5e403af938870f1c, 0x339e8ef6fc78f2f1, 0x2a8cba3a97cf199c)) by {
      SquareIs(0x2c9631331a85dcb0, 0x3efb57fc456e774, 0x837a08922b8f81f8, 0x5e403af938870f1c, 0x339e8ef6fc78f2f1, 0x2a8cba3a97cf199c,
               0x3b8e48a0b5c9124, -0x3e1c05a4d473daf1, 0x7161d62518d44834);
    }
    Square(R, x, 2 * e, Felt(0x5e403af938870f1c, 0x339e8ef6fc78f2f1, 0x2a8cba3a97cf199c), Felt(0xc1ef3477e5f70b0, 0x71c08073b76a3f78, 0x51d6ee31bcf54642)) by {
      SquareIs(0x5e403af938870f1c, 0x339e8ef6fc78f2f1, 0x2a8cba3a97cf199c, 0xc1ef3477e5f70b0, 0x71c08073b76a3f78, 0x51d6ee31bcf54642,
               0x118a73fd2f73b2a8, 0x3018a505677273e8, 0x30cfbc5d9534f9cf);
    }
    Square(R, x, 4 * e, Felt(0xc1ef3477e5f70b0, 0x71c08073b76a3f78, 0x51d6ee31bcf54642), Felt(0x609d1bc171659544, 0x8d4e5a639a085505, 0x3058c6ba0014b958)) by {
      SquareIs(0xc1ef3477e5f70b0, 0x71c08073b76a3f78, 0x51d6ee31bcf54642, 0x609d1bc171659544, 0x8d4e5a639a085505, 0x3058c6ba0014b958,
               -0x4827e841c6597624, 0x3956a8fbb63a20d7, 0x54752996385a12ac);
    }
    Square(R, x, 8 * e, Felt(0x609d1bc171659544, 0x8d4e5a639a085505, 0x3058c6ba0014b958), Felt(0x3c7b221de2e3655e, 0x3bc7210279f923f5, 0x1425cb1e99cc3a40)) by {
      SquareIs(0x609d1bc171659544, 0x8d4e5a639a085505, 0x3058c6ba0014b958, 0x3c7b221de2e3655e, 0x3bc7210279f923f5, 0x1425cb1e99cc3a40,
               -0x10e92de9f596d8be, 0x96e62e614ad137e3, 0x7b9ebd476ce34cd9);
    }
  }

  lemma Squares10(R: Ring<Felt>, x: Felt, e: nat)
    requires IsRing(R) && SquaresAsFelts(R) && Felt(0x3c7b221de2e3655e, 0x3bc7210279f923f5, 0x1425cb1e99cc3a40) == Pow(R, x, e)
    ensures Felt(0x3681a277929fe417, 0x26527325bb7eb56, 0xaa63b65e3f38a584) == Pow(R, x, 16 * e)
  {
    Square(R, x, 1 * e, Felt(0x3c7b221de2e3655e, 0x3bc7210279f923f5, 0x1425cb1e99cc3a40), Felt(0xc65abc630da1ce46, 0xb6ccc54661dab972, 0x2481273c61309f1c)) by {
      SquareIs(0x3c7b221de2e3655e, 0x3bc7210279f923f5, 0x1425cb1e99cc3a40, 0xc65abc630da1ce46, 0xb6ccc54661dab972, 0x2481273c61309f1c,
               0x4e12fa3cde081be, 0x2411af04c60ceefa, 0x19106a52f928a05d);
    }
    Square(R, x, 2 * e, Felt(0xc65abc630da1ce46, 0xb6ccc54661dab972, 0x2481273c61309f1c), Felt(0x5fc256b3c9b9443c, 0x592994655938e80c, 0x4ed09df117b88693)) by {
      SquareIs(0xc65abc630da1ce46, 0xb6ccc54661dab972, 0x2481273c61309f1c, 0x5fc256b3c9b9443c, 0x592994655938e80c, 0x4ed09df117b88693,
               0x658e71af639349f8, 0x14a33cbe0c5cc5c2c, 0xc04e09b84e094e91);
    }
    Square(R, x, 4 * e, Felt(0x5fc256b3c9b9443c, 0x592994655938e80c, 0x4ed09df117b88693), Felt(0xa06ab42a1ac6937f, 0xaf84c3595304aa94, 0x95a495af648969d8)) by {
      SquareIs(0x5fc256b3c9b9443c, 0x592994655938e80c, 0x4ed09df117b88693, 0xa06ab42a1ac6937f, 0xaf84c3595304aa94, 0x95a495af648969d8,
               -0x1314d822f565b337, 0x6157195193bf506b, 0x724838faeb8dbc09);
    }
    Square(R, x, 8 * e, Felt(0xa06ab42a1ac6937f, 0xaf84c3595304aa94, 0x95a495af648969d8), Felt(0x3681a277929fe417, 0x26527325bb7eb56, 0xaa63b65e3f38a584)) by {
      SquareIs(0xa06ab42a1ac6937f, 0xaf84c3595304aa94, 0x95a495af648969d8, 0x3681a277929fe417, 0x26527325bb7eb56, 0xaa63b65e3f38a584,
               -0x68acad1367660cd6, 0x151b17fe23501a702, 0x18b5a4205de083a9c);
    }
  }

  lemma Squares11(R: Ring<Felt>, x: Felt, e: nat)
    requires IsRing(R) && SquaresAsFelts(R) && Felt(0x3681a277929fe417, 0x26527325bb7eb56, 0xaa63b65e3f38a584) == Pow(R, x, e)
    ensures Felt(0x7ae1ce3d4fb97875, 0x43686f570e4713fc, 0x81db36e14bdd1de4) == Pow(R, x, 16 * e)
  {
    Square(R, x, 1 * e, Felt(0x3681a277929fe417, 0x26527325bb7eb56, 0xaa63b65e3f38a584), Felt(0x79c72bbd93365af5, 0xd743c0b90722231f, 0x45438538cbf6c6a)) by {
      SquareIs(0x3681a277929fe417, 0x26527325bb7eb56, 0xaa63b65e3f38a584, 0x79c72bbd93365af5, 0xd743c0b90722231f, 0x45438538cbf6c6a,
               0x86abc7ad3ed126c, -0x6d3345d25c2c890b, 0xb9fcf3541e47de42);
    }
    Square(R, x, 2 * e, Felt(0x79c72bbd93365af5, 0xd743c0b90722231f, 0x45438538cbf6c6a), Felt(0xd6abd490d01a0633, 0x758ae5a47b70a294, 0xf53fed8f90897696)) by {
      SquareIs(0x79c72bbd93365af5, 0xd743c0b90722231f, 0x45438538cbf6c6a, 0xd6abd490d01a0633, 0x758ae5a47b70a294, 0xf53fed8f90897696,
               0x32a621180769ea9a, 0xd40204d3b9c0048a, 0xb933f6c6d5f1adf3);
    }
    Square(R, x, 4 * e, Felt(0xd6abd490d01a0633, 0x758ae5a47b70a294, 0xf53fed8f90897696), Felt(0xf34e3f9d67e08f34, 0x4b5945c4394bf81, 0xa646e95db51f664)) by {
      SquareIs(0xd6abd490d01a0633, 0x758ae5a47b70a294, 0xf53fed8f90897696, 0xf34e3f9d67e08f34, 0x4b5945c4394bf81, 0xa646e95db51f664,
               -0x2d32d55945a5167b, 0xbb652616d5c74d03, 0x2bc3bc9cdc7b496d4);
    }
    Square(R, x, 8 * e, Felt(0xf34e3f9d67e08f34, 0x4b5945c4394bf81, 0xa646e95db51f664), Felt(0x7ae1ce3d4fb97875, 0x43686f570e4713fc, 0x81db36e14bdd1de4)) by {
      SquareIs(0xf34e3f9d67e08f34, 0x4b5945c4394bf81, 0xa646e95db51f664, 0x7ae1ce3d4fb97875, 0x43686f570e4713fc, 0x81db36e14bdd1de4,
               0xe6dbc32be17e2153, 0x8e97a1f25500824, 0x144331c67888c8cd);
    }
  }

  lemma Squares12(R: Ring<Felt>, x: Felt, e: nat)
    requires IsRing(R) && SquaresAsFelts(R) && Felt(0x7ae1ce3d4fb97875, 0x43686f570e4713fc, 0x81db36e14bdd1de4) == Pow(R, x, e)
    ensures Felt(0x387d29da7ca979d9, 0x5fd4d7f6d8338d3f, 0x65b97f4e060e297d) == Pow(R, x, 16 * e)
  {
    Square(R, x, 1 * e, Felt(0x7ae1ce3d4fb97875, 0x43686f570e4713fc, 0x81db36e14bdd1de4), Felt(0x4c5d6a8030e064eb, 0x3fca8b75540d7428, 0x1eadcaf318b344a)) by {
      SquareIs(0x7ae1ce3d4fb97875, 0x43686f570e4713fc, 0x81db36e14bdd1de4, 0x4c5d6a8030e064eb, 0x3fca8b75540d7428, 0x1eadcaf318b344a,
               -0x966b20c5b533052, 0x433a7d1440f44e00, 0xd04882c93c9cb13e);
    }
    Square(R, x, 2 * e, Felt(0x4c5d6a8030e064eb, 0x3fca8b75540d7428, 0x1eadcaf318b344a), Felt(0xbd8e53a3ecc9e8c7, 0x1ee55996f2b8c56b, 0xd9b73104da376913)) by {
      SquareIs(0x4c5d6a8030e064eb, 0x3fca8b75540d7428, 0x1eadcaf318b344a, 0xbd8e53a3ecc9e8c7, 0x1ee55996f2b8c56b, 0xd9b73104da376913,
               0x15d2f7f973d71fd2, 0x26ffc5328216fdc1, 0x110dd75a8582d26d);
    }
    Square(R, x, 4 * e, Felt(0xbd8e53a3ecc9e8c7, 0x1ee55996f2b8c56b, 0xd9b73104da376913), Felt(0x1b1ed099479e188f, 0xe0d1758cb1afaae4, 0x6dd9d364cc7dbd45)) by {
      SquareIs(0xbd8e53a3ecc9e8c7, 0x1ee55996f2b8c56b, 0xd9b73104da376913, 0x1b1ed099479e188f, 0xe0d1758cb1afaae4, 0x6dd9d364cc7dbd45,
               0x57ce6d0453301e40, -0x56da09ac2a865211, 0x1ff4d368b47488067);
    }
    Square(R, x, 8 * e, Felt(0x1b1ed099479e188f, 0xe0d1758cb1afaae4, 0x6dd9d364cc7dbd45), Felt(0x387d29da7ca979d9, 0x5fd4d7f6d8338d3f, 0x65b97f4e060e297d)) by {
      SquareIs(0x1b1ed099479e188f, 0xe0d1758cb1afaae4, 0x6dd9d364cc7dbd45, 0x387d29da7ca979d9, 0x5fd4d7f6d8338d3f, 0x65b97f4e060e297d,
               -0xbe1170c8457920e0, 0xc1700b6717e5efc8, 0x10bd8d51ea030c942);
    }
  }

  lemma Squares13(R: Ring<Felt>, x: Felt, e: nat)
    requires IsRing(R) && SquaresAsFelts(R) && Felt(0x387d29da7ca979d9, 0x5fd4d7f6d8338d3f, 0x65b97f4e060e297d) == Pow(R, x, e)
    ensures Felt(0x417257087e65ec31, 0x7d35c1d10b8777b0, 0x8db8de5ddfeccc10) == Pow(R, x, 16 * e)
  {
    Square(R, x, 1 * e, Felt(0x387d29da7ca979d9, 0x5fd4d7f6d8338d3f, 0x65b97f4e060e297d), Felt(0xa6260b58ad93867, 0xe2c3b6bac0789f84, 0x4dffe8be718c6bfb)) by {
      SquareIs(0x387d29da7ca979d9, 0x5fd4d7f6d8338d3f, 0x65b97f4e060e297d, 0xa6260b58ad93867, 0xe2c3b6bac0789f84, 0x4dffe8be718c6bfb,
               -0x3fb1d3d744d27bfc, 0x4e07c228a7b539c7, 0x79302e386625d079);
    }
    Square(R, x, 2 * e, Felt(0xa6260b58ad93867, 0xe2c3b6bac0789f84, 0x4dffe8be718c6bfb), Felt(0x21751b921ee0b0cc, 0xc94c9141eeccce69, 0x4cff5e39103ae3f6)) by {
      SquareIs(0xa6260b58ad93867, 0xe2c3b6bac0789f84, 0x4dffe8be718c6bfb, 0x21751b921ee0b0cc, 0xc94c9141eeccce69, 0x4cff5e39103ae3f6,
               -0x89c344caaa169c33, 0x84d0bbc5da02aa8e, 0xe6f6072236c0d42d);
    }
    Square(R, x, 4 * e, Felt(0x21751b921ee0b0cc, 0xc94c9141eeccce69, 0x4cff5e39103ae3f6), Felt(0x3262ddfcf18238d3, 0xe7be5760ea685a43, 0x88a07ddee5d5ba8f)) by {
      SquareIs(0x21751b921ee0b0cc, 0xc94c9141eeccce69, 0x4cff5e39103ae3f6, 0x3262ddfcf18238d3, 0xe7be5760ea685a43, 0x88a07ddee5d5ba8f,
               -0x74b7aa4911a7fe0f, 0x968c5b141459b47d, 0xc99239fc38332cf6);
    }
    Square(R, x, 8 * e, Felt(0x3262ddfcf18238d3, 0xe7be5760ea685a43, 0x88a07ddee5d5ba8f), Felt(0x417257087e65ec31, 0x7d35c1d10b8777b0, 0x8db8de5ddfeccc10)) by {
      SquareIs(0x3262ddfcf18238d3, 0xe7be5760ea685a43, 0x88a07ddee5d5ba8f, 0x417257087e65ec31, 0x7d35c1d10b8777b0, 0x8db8de5ddfeccc10,
               -0xed7209c30ab92122, 0x109ab3e139b58b9bb, 0x1507c3290f96c9514);
    }
  }

  lemma Squares14(R: Ring<Felt>, x: Felt, e: nat)
    requires IsRing(R) && SquaresAsFelts(R) && Felt(0x417257087e65ec31, 0x7d35c1d10b8777b0, 0x8db8de5ddfeccc10) == Pow(R, x, e)
    ensures Felt(0xb7589141b730601e, 0x669e1c1b2d3360db, 0x5ccafdaa10535269) == Pow(R, x, 16 * e)
  {
    Square(R, x, 1 * e, Felt(0x417257087e65ec31, 0x7d35c1d10b8777b0, 0x8db8de5ddfeccc10), Felt(0x86b451884c69145b, 0x498e4aef85c593a4, 0xfc2d98f005d13347)) by {
      SquareIs(0x417257087e65ec31, 0x7d35c1d10b8777b0, 0x8db8de5ddfeccc10, 0x86b451884c69145b, 0x498e4aef85c593a4, 0xfc2d98f005d13347,
               -0x79e6cb087c0428fa, 0x7c3209483da8b2bc, 0xd4292ef3637104d9);
    }
    Square(R, x, 2 * e, Felt(0x86b451884c69145b, 0x498e4aef85c593a4, 0xfc2d98f005d13347), Felt(0xddb1530cfd2be947, 0x9bf2bdf3c945696b, 0x541c37663f438129)) by {
      SquareIs(0x86b451884c69145b, 0x498e4aef85c593a4, 0xfc2d98f005d13347, 0xddb1530cfd2be947, 0x9bf2bdf3c945696b, 0x541c37663f438129,
               -0x4a091313a71acde6, -0x1a16e0607734f38c, 0x216ef3fe94d792a12);
    }
    Square(R, x, 4 * e, Felt(0xddb1530cfd2be947, 0x9bf2bdf3c945696b, 0x541c37663f438129), Felt(0xd0899c23f3f4d72b, 0x3f9defbbd296ac68, 0xad87183948bc1e21)) by {
      SquareIs(0xddb1530cfd2be947, 0x9bf2bdf3c945696b, 0x541c37663f438129, 0xd0899c23f3f4d72b, 0x3f9defbbd296ac68, 0xad87183948bc1e21,
               0x5981f6f84ffbe040, 0x158f04c9b4d9bd4a7, 0x10c4f9ce72d4f73e7);
    }
    Square(R, x, 8 * e, Felt(0xd0899c23f3f4d72b, 0x3f9defbbd296ac68, 0xad87183948bc1e21), Felt(0xb7589141b730601e, 0x669e1c1b2d3360db, 0x5ccafdaa10535269)) by {
      SquareIs(0xd0899c23f3f4d72b, 0x3f9defbbd296ac68, 0xad87183948bc1e21, 0xb7589141b730601e, 0x669e1c1b2d3360db, 0x5ccafdaa10535269,
               0x53a14d1275a00e4b, 0x4843c6cf3d3e4ca4, 0x1a025111a6061e52e);
    }
  }

  lemma Squares15(R: Ring<Felt>, x: Felt, e: nat)
    requires IsRing(R) && SquaresAsFelts(R) && Felt(0xb7589141b730601e, 0x669e1c1b2d3360db, 0x5ccafdaa10535269) == Pow(R, x, e)
    ensures Felt(0xdc85cbe228d8332e, 0xc305b7425f00a295, 0x1bee8a00639051c4) == Pow(R, x, 16 * e)
  {
    Square(R, x, 1 * e, Felt(0xb7589141b730601e, 0x669e1c1b2d3360db, 0x5ccafdaa10535269), Felt(0xc664091548b8a7d0, 0x1621e37a23cf4f2c, 0x7f0903ade7ee226a)) by {
      SquareIs(0xb7589141b730601e, 0x669e1c1b2d3360db, 0x5ccafdaa10535269, 0xc664091548b8a7d0, 0x1621e37a23cf4f2c, 0x7f0903ade7ee226a,
               0x38eb5d3b9e6a1c0e, 0xbbbee723ea95f4bd, 0xcfaf52d9d34c589c);
    }
    Square(R, x, 2 * e, Felt(0xc664091548b8a7d0, 0x1621e37a23cf4f2c, 0x7f0903ade7ee226a), Felt(0x9ffb136dd49df7f3, 0xf08c6b495517bca1, 0x118151993d0a2d6a)) by {
      SquareIs(0xc664091548b8a7d0, 0x1621e37a23cf4f2c, 0x7f0903ade7ee226a, 0x9ffb136dd49df7f3, 0xf08c6b495517bca1, 0x118151993d0a2d6a,
               0x83c7b66c7dddd09d, -0x6c50b5312dec095, 0x105d9034de6908e4a);
    }
    Square(R, x, 4 * e, Felt(0x9ffb136dd49df7f3, 0xf08c6b495517bca1, 0x118151993d0a2d6a), Felt(0xf97054c12946cb8b, 0x18148f3e84b933e4, 0x241068b6f9398e69)) by {
      SquareIs(0x9ffb136dd49df7f3, 0xf08c6b495517bca1, 0x118151993d0a2d6a, 0xf97054c12946cb8b, 0x18148f3e84b933e4, 0x241068b6f9398e69,
               0x43142b45186135ca, 0x14c5984170805f332, 0xf91afdf4420081f8);
    }
    Square(R, x, 8 * e, Felt(0xf97054c12946cb8b, 0x18148f3e84b933e4, 0x241068b6f9398e69), Felt(0xdc85cbe228d8332e, 0xc305b7425f00a295, 0x1bee8a00639051c4)) by {
      SquareIs(0xf97054c12946cb8b, 0x18148f3e84b933e4, 0x241068b6f9398e69, 0xdc85cbe228d8332e, 0xc305b7425f00a295, 0x1bee8a00639051c4,
               0xec42d79c55fc0943, 0x30a160a4e02428fa, 0x4da00cf4323e2463);
    }
  }

  /* No root. */

  /** Fermat: powers of r whose exponents differ by a multiple of PRIME - 1 are equal. */
  lemma PowersAgree(r: Belt, e: nat, k: nat)
    requires r != 0
    ensures Pow(BeltRing(), r, e + (PRIME - 1) * k) == Pow(BeltRing(), r, e)
  {
    var B := BeltRing();
    BeltIsRing();
    PowAdd(B, r, e, (PRIME - 1) * k);
    PowMul(B, r, PRIME - 1, k);
    Fermat(r);
    PowOne(B, k);
    Units(B, Pow(B, r, e));
  }

  /** x^(2^32), x^(2^64), and the inverse of their difference. */
  const FROB32: Felt := Felt(0x3bdaf93b311cc49f, 0xc6c5793f25c050f8, 0xbee725f0438a3f42)
  const FROB64: Felt := Felt(0xdc85cbe228d8332e, 0xc305b7425f00a295, 0x1bee8a00639051c4)
  const WITNESS: Felt := Felt(0x9ae456500eb309e8, 0xc684114bb5812acb, 0xaf217ec7d0598a4f)

  lemma FirstHalf(R: Ring<Felt>, x: Felt, e: nat)
    requires IsRing(R) && SquaresAsFelts(R) && X == Pow(R, x, e)
    ensures FROB32 == Pow(R, x, 0x1_0000_0000 * e)
  {
    Squares0(R, x, 1 * e);
    Squares1(R, x, 16 * e);
    Squares2(R, x, 256 * e);
    Squares3(R, x, 4096 * e);
    Squares4(R, x, 65536 * e);
    Squares5(R, x, 1048576 * e);
    Squares6(R, x, 16777216 * e);
    Squares7(R, x, 268435456 * e);
  }

  lemma SecondHalf(R: Ring<Felt>, x: Felt, e: nat)
    requires IsRing(R) && SquaresAsFelts(R) && FROB32 == Pow(R, x, e)
    ensures FROB64 == Pow(R, x, 0x1_0000_0000 * e)
  {
    Squares8(R, x, 1 * e);
    Squares9(R, x, 16 * e);
    Squares10(R, x, 256 * e);
    Squares11(R, x, 4096 * e);
    Squares12(R, x, 65536 * e);
    Squares13(R, x, 1048576 * e);
    Squares14(R, x, 16777216 * e);
    Squares15(R, x, 268435456 * e);
  }

  lemma FrobeniusPowers(R: Ring<Felt>, x: Felt, e: nat)
    requires IsRing(R) && SquaresAsFelts(R) && X == Pow(R, x, e)
    ensures FROB32 == Pow(R, x, 0x1_0000_0000 * e) && FROB64 == Pow(R, x, 0x1_0000_0000_0000_0000 * e)
  {
    FirstHalf(R, x, e);
    SecondHalf(R, x, 0x1_0000_0000 * e);
  }

  lemma InvertibleDifference()
    ensures FMul(FSub(FROB64, FROB32), WITNESS) == FELT1
  {
    var d := Felt(0xa0aad2a6f7bb6e8f, 0xfc403e023940519e, 0x5d07640f20061283);
    assert FSub(FROB64, FROB32) == d;
    assert Residue(IntMul(Ints(d), Ints(WITNESS))) == FELT1;
    MulResidue(d, WITNESS);
  }

  lemma FirstPower() returns (e: nat)
    ensures X == Pow(FeltRing(), X, e)
  {
    FeltIsRing();
    PowSmall(FeltRing(), X);
    e := 1;
  }

  lemma PowersDivideOne(R: Ring<Felt>, B: Ring<Belt>, c: Belt, v: Felt -> Belt, r: Belt, e: nat, d: Felt)
    requires IsRing(R) && SquaresAsFelts(R) && X == Pow(R, X, e)
    requires IsRing(B) && Respects(R, B, c, v) && v(R.one) == B.one && v(X) == r
    requires Pow(B, r, 0x1_0000_0000_0000_0000 * e) == Pow(B, r, 0x1_0000_0000 * e)
    requires v(d) == B.sub(v(FROB64), v(FROB32)) && R.mul(d, WITNESS) == R.one
    ensures Same(B, c, B.one, B.zero)
  {
    FrobeniusPowers(R, X, e);
    DividesOne(R, B, c, v, X, r, 0x1_0000_0000 * e, 0x1_0000_0000_0000_0000 * e, d, WITNESS);
  }

  /** The value of x^3 - x + 1 at r divides one. */
  lemma ValueDividesOne(r: Belt)
    requires r != 0
    ensures Same(BeltRing(), Eval(BeltRing(), IRD, r), 1, 0)
  {
    var e := FirstPower();
    FeltIsRing();
    BeltIsRing();
    ValueRespects(r);
    ValueOfX(r);
    assert 0x1_0000_0000_0000_0000 * e == 0x1_0000_0000 * e + (PRIME - 1) * e;
    PowersAgree(r, 0x1_0000_0000 * e, e);
    FrobeniusDifference(r);
    PowersDivideOne(FeltRing(), BeltRing(), Eval(BeltRing(), IRD, r), (a: Felt) => Value(r, a), r, e, FSub(FROB64, FROB32));
  }

  lemma FrobeniusDifference(r: Belt)
    ensures Value(r, FSub(FROB64, FROB32)) == BeltSub(Value(r, FROB64), Value(r, FROB32))
    ensures FMul(FSub(FROB64, FROB32), WITNESS) == FELT1
  {
    BeltIsRing();
    ValueOfDifference(BeltRing(), FROB64.c0, FROB64.c1, FROB64.c2, FROB32.c0, FROB32.c1, FROB32.c2, r);
    InvertibleDifference();
  }

  lemma NoRoot(r: Belt)
    ensures Eval(BeltRing(), IRD, r) != 0
  {
    var B := BeltRing();
    BeltIsRing();
    if r == 0 {
      var v := Eval(B, IRD[1..], 0);
      Units(B, v);
      Units(B, 1);
    } else {
      ValueDividesOne(r);
      var h :| 1 == BeltAdd(0, BeltMul(h, Eval(B, IRD, r)));
      Units(B, h);
    }
  }
}

/** The table of roots of unity, and what it certifies: each entry's power by half its order is minus
    one, and the modulus is prime. */
module Primality {
  import opened Modular
  import opened Bits
  import opened Rings
  import opened Goldilocks

  /** Entry i is meant to be a root of unity of order 2^i. */
  const ROOTS: seq<Belt> := [
    0x0000000000000001, 0xffffffff00000000, 0x0001000000000000, 0xfffffffeff000001,
    0xefffffff00000001, 0x00003fffffffc000, 0x0000008000000000, 0xf80007ff08000001,
    0xbf79143ce60ca966, 0x1905d02a5c411f4e, 0x9d8f2ad78bfed972, 0x0653b4801da1c8cf,
    0xf2c35199959dfcb6, 0x1544ef2335d17997, 0xe0ee099310bba1e2, 0xf6b2cffe2306baac,
    0x54df9630bf79450e, 0xabd0a6e8aa3d8a0e, 0x81281a7b05f9beac, 0xfbd41c6b8caa3302,
    0x30ba2ecd5e93e76d, 0xf502aef532322654, 0x4b2a18ade67246b5, 0xea9d5a1336fbc98b,
    0x86cdcc31c307e171, 0x4bbaf5976ecfefd8, 0xed41d05b78d6e286, 0x10d78dd8915a171d,
    0x59049500004a4485, 0xdfa8c93ba46d2666, 0x7e9bd009b86a0845, 0x400a7f755588e659,
    0x185629dcda58878c
  ]

  ghost predicate IsPrime(n: int) {
    n > 1 && forall d | 1 < d < n :: n % d != 0
  }

  /* Integer powers and congruences. */

  ghost function IntRing(): Ring<int> {
    Ring(0, 1, (x: int, y: int) => x + y, (x: int, y: int) => x - y, (x: int, y: int) => x * y)
  }

  lemma IntIsRing()
    ensures IsRing(IntRing())
  {
    forall x: int, y: int, z: int ensures Laws(IntRing(), x, y, z) {
      assert (x * y) * z == x * (y * z);
      assert x * (y + z) == x * y + x * z;
    }
  }

  ghost function IntPow(x: int, n: nat): int { Pow(IntRing(), x, n) }

  lemma {:induction false} PowCongruent(x: int, y: int, n: nat, d: int)
    requires d > 0 && x % d == y % d
    ensures IntPow(x, n) % d == IntPow(y, n) % d
  {
    if n > 0 {
      PowCongruent(x, y, n - 1, d);
      var u, v := IntPow(x, n - 1), IntPow(y, n - 1);
      ModMul(u, x, d);
      ModMul(u % d, x, d);
      ModMul(v, y, d);
      ModMul(v % d, y, d);
    }
  }

  lemma {:induction false} BeltPow(x: Belt, n: nat)
    ensures Pow(BeltRing(), x, n) == IntPow(x, n) % PRIME
  {
    if n > 0 {
      BeltPow(x, n - 1);
      ModMul(IntPow(x, n - 1), x, PRIME);
    }
  }

  /* The table. */

  lemma RootSquares0()
    ensures forall i | 1 <= i <= 8 :: BeltMul(ROOTS[i], ROOTS[i]) == ROOTS[i - 1]
  {
    assert BeltMul(ROOTS[1], ROOTS[1]) == ROOTS[0];
    assert BeltMul(ROOTS[2], ROOTS[2]) == ROOTS[1];
    assert BeltMul(ROOTS[3], ROOTS[3]) == ROOTS[2];
    assert BeltMul(ROOTS[4], ROOTS[4]) == ROOTS[3];
    assert BeltMul(ROOTS[5], ROOTS[5]) == ROOTS[4];
    assert BeltMul(ROOTS[6], ROOTS[6]) == ROOTS[5];
    assert BeltMul(ROOTS[7], ROOTS[7]) == ROOTS[6];
    assert BeltMul(ROOTS[8], ROOTS[8]) == ROOTS[7];
  }

  lemma RootSquares1()
    ensures forall i | 9 <= i <= 16 :: BeltMul(ROOTS[i], ROOTS[i]) == ROOTS[i - 1]
  {
    assert BeltMul(ROOTS[9], ROOTS[9]) == ROOTS[8];
    assert BeltMul(ROOTS[10], ROOTS[10]) == ROOTS[9];
    assert BeltMul(ROOTS[11], ROOTS[11]) == ROOTS[10];
    assert BeltMul(ROOTS[12], ROOTS[12]) == ROOTS[11];
    assert BeltMul(ROOTS[13], ROOTS[13]) == ROOTS[12];
    assert BeltMul(ROOTS[14], ROOTS[14]) == ROOTS[13];
    assert BeltMul(ROOTS[15], ROOTS[15]) == ROOTS[14];
    assert BeltMul(ROOTS[16], ROOTS[16]) == ROOTS[15];
  }

  lemma RootSquares2()
    ensures forall i | 17 <= i <= 24 :: BeltMul(ROOTS[i], ROOTS[i]) == ROOTS[i - 1]
  {
    assert BeltMul(ROOTS[17], ROOTS[17]) == ROOTS[16];
    assert BeltMul(ROOTS[18], ROOTS[18]) == ROOTS[17];
    assert BeltMul(ROOTS[19], ROOTS[19]) == ROOTS[18];
    assert BeltMul(ROOTS[20], ROOTS[20]) == ROOTS[19];
    assert BeltMul(ROOTS[21], ROOTS[21]) == ROOTS[20];
    assert BeltMul(ROOTS[22], ROOTS[22]) == ROOTS[21];
    assert BeltMul(ROOTS[23], ROOTS[23]) == ROOTS[22];
    assert BeltMul(ROOTS[24], ROOTS[24]) == ROOTS[23];
  }

  lemma RootSquares3()
    ensures forall i | 25 <= i <= 32 :: BeltMul(ROOTS[i], ROOTS[i]) == ROOTS[i - 1]
  {
    assert BeltMul(ROOTS[25], ROOTS[25]) == ROOTS[24];
    assert BeltMul(ROOTS[26], ROOTS[26]) == ROOTS[25];
    assert BeltMul(ROOTS[27], ROOTS[27]) == ROOTS[26];
    assert BeltMul(ROOTS[28], ROOTS[28]) == ROOTS[27];
    assert BeltMul(ROOTS[29], ROOTS[29]) == ROOTS[28];
    assert BeltMul(ROOTS[30], ROOTS[30]) == ROOTS[29];
    assert BeltMul(ROOTS[31], ROOTS[31]) == ROOTS[30];
    assert BeltMul(ROOTS[32], ROOTS[32]) == ROOTS[31];
  }

  /** Entry i raised to 2^(i-1) is minus one. */
  lemma {:induction false} RootHalves(i: nat)
    requires 1 <= i <= 32
    ensures Pow(BeltRing(), ROOTS[i], Pow2(i - 1)) == Neg(BeltRing(), 1)
  {
    if i == 1 {
      BeltIsRing();
      PowSmall(BeltRing(), ROOTS[1]);
    } else {
      RootSquare(i);
      RootHalves(i - 1);
      BeltIsRing();
      PowerOfSquare(BeltRing(), ROOTS[i], ROOTS[i - 1], Pow2(i - 2));
    }
  }

  lemma RootSquare(i: nat)
    requires 1 <= i <= 32
    ensures BeltMul(ROOTS[i], ROOTS[i]) == ROOTS[i - 1]
  {
    if i <= 8 {
      RootSquares0();
    } else if i <= 16 {
      RootSquares1();
    } else if i <= 24 {
      RootSquares2();
    } else {
      RootSquares3();
    }
  }

  lemma PowerOfSquare<T(!new)>(R: Ring<T>, x: T, y: T, n: nat)
    requires IsRing(R) && R.mul(x, x) == y
    ensures Pow(R, x, 2 * n) == Pow(R, y, n)
  {
    PowMul(R, x, 2, n);
    PowSmall(R, x);
  }

  /* The table's entries as powers of seven. */

  /** Seven to the powers 2^n - 1. */
  const SEVENS: seq<Belt> := [
    0x0000000000000001, 0x0000000000000007, 0x0000000000000157, 0x00000000000c90f7,
    0x0000045160b7a437, 0x99afae240f49187b, 0xa8974fb5a161a54e, 0x61400096e777dba3,
    0x70c2c3d51532b015, 0x246c0ceea861a57f, 0x7288f8ac3eb147db, 0x312d46fa4985c61b,
    0xa64705c6baaba93f, 0x8ba3d55d2139aa43, 0x91851167eeceda71, 0x397267bbb0d470dc,
    0xa86793b70b1704a5, 0x3c0bda2ffb163853, 0x02de90873f8dcc0c, 0x8bfabfdd7ea6212d,
    0x19c0e0fb7b446dca, 0x69d6953bb77f86f7, 0x6c1ee88c45c2b408, 0x51e7d705a299e049,
    0x7c006a86cb2e1b6a, 0xb5b66fc4e2a5e852, 0x9c09c794643052c2, 0x1ca370dddbd4b593,
    0xb54faaefeebfd11e, 0xe6479c575768caac, 0x514fd349847c85d1, 0xd95051a31cf4a6ef,
    0x185629dcda58878c
  ]

  /** Squared and times seven, with the quotient by the prime. */
  lemma SevenIs(a: Belt, b: Belt, k: int)
    requires 7 * (a * a) == b + k * 18446744069414584321
    ensures BeltMul(BeltMul(a, a), 7) == b
  {
    ModMul(a * a, 7, PRIME);
    DivModUnique(7 * (a * a), PRIME, k, b);
  }

  lemma SevenSteps0()
    ensures forall i | 0 <= i < 8 :: BeltMul(BeltMul(SEVENS[i], SEVENS[i]), 7) == SEVENS[i + 1]
  {
    SevenIs(0x1, 0x7, 0x0);
    SevenIs(0x7, 0x157, 0x0);
    SevenIs(0x157, 0xc90f7, 0x0);
    SevenIs(0xc90f7, 0x45160b7a437, 0x0);
    SevenIs(0x45160b7a437, 0x99afae240f49187b, 0x82823c);
    SevenIs(0x99afae240f49187b, 0xa8974fb5a161a54e, 0x285d83f01100b6861);
    SevenIs(0xa8974fb5a161a54e, 0x61400096e777dba3, 0x309309e61ab7b9eb9);
    SevenIs(0x61400096e777dba3, 0x70c2c3d51532b015, 0x1029af32392a5546a);
  }

  lemma SevenSteps1()
    ensures forall i | 8 <= i < 16 :: BeltMul(BeltMul(SEVENS[i], SEVENS[i]), 7) == SEVENS[i + 1]
  {
    SevenIs(0x70c2c3d51532b015, 0x246c0ceea861a57f, 0x15bacfcb83ed48690);
    SevenIs(0x246c0ceea861a57f, 0x7288f8ac3eb147db, 0x2445f8b265eb6b2c);
    SevenIs(0x7288f8ac3eb147db, 0x312d46fa4985c61b, 0x166b3ef535982af54);
    SevenIs(0x312d46fa4985c61b, 0xa64705c6baaba93f, 0x42208c4128d6c6b0);
    SevenIs(0xa64705c6baaba93f, 0x8ba3d55d2139aa43, 0x2f4014a60792a0444);
    SevenIs(0x8ba3d55d2139aa43, 0x91851167eeceda71, 0x2152f41d9d0b6844e);
    SevenIs(0x91851167eeceda71, 0x397267bbb0d470dc, 0x2430814360cf0184b);
    SevenIs(0x397267bbb0d470dc, 0xa86793b70b1704a5, 0x5a3d053f47d1a6cb);
  }

  lemma SevenSteps2()
    ensures forall i | 16 <= i < 24 :: BeltMul(BeltMul(SEVENS[i], SEVENS[i]), 7) == SEVENS[i + 1]
  {
    SevenIs(0xa86793b70b1704a5, 0x3c0bda2ffb163853, 0x30778c27e1f0ac81c);
    SevenIs(0x3c0bda2ffb163853, 0x2de90873f8dcc0c, 0x6296e7c5290d2053);
    SevenIs(0x2de90873f8dcc0c, 0x8bfabfdd7ea6212d, 0x39a247b057c2c3);
    SevenIs(0x8bfabfdd7ea6212d, 0x19c0e0fb7b446dca, 0x217c7cdbae357ff95);
    SevenIs(0x19c0e0fb7b446dca, 0x69d6953bb77f86f7, 0x1222acd79d47f0c5);
    SevenIs(0x69d6953bb77f86f7, 0x6c1ee88c45c2b408, 0x1324c17fef9cfdc2f);
    SevenIs(0x6c1ee88c45c2b408, 0x51e7d705a299e049, 0x13fa6a79d0884e177);
    SevenIs(0x51e7d705a299e049, 0x7c006a86cb2e1b6a, 0xb76fb833f31eb64d);
  }

  lemma SevenSteps3()
    ensures forall i | 24 <= i < 32 :: BeltMul(BeltMul(SEVENS[i], SEVENS[i]), 7) == SEVENS[i + 1]
  {
    SevenIs(0x7c006a86cb2e1b6a, 0xb5b66fc4e2a5e852, 0x1a472d264ec8eceea);
    SevenIs(0xb5b66fc4e2a5e852, 0x9c09c794643052c2, 0x386e064702b8cc51a);
    SevenIs(0x9c09c794643052c2, 0x1ca370dddbd4b593, 0x299c3714a0cb14789);
    SevenIs(0x1ca370dddbd4b593, 0xb54faaefeebfd11e, 0x166d1f4245088fc1);
    SevenIs(0xb54faaefeebfd11e, 0xe6479c575768caac, 0x382e4439317b131f0);
    SevenIs(0xe6479c575768caac, 0x514fd349847c85d1, 0x5aa0146b8e8eeb31f);
    SevenIs(0x514fd349847c85d1, 0xd95051a31cf4a6ef, 0xb4c9482cf5f72978);
    SevenIs(0xd95051a31cf4a6ef, 0x185629dcda58878c, 0x50b50d9389ccb3e5b);
  }

  lemma SevenStep(i: nat)
    requires i < 32
    ensures BeltMul(BeltMul(SEVENS[i], SEVENS[i]), 7) == SEVENS[i + 1]
  {
    if i < 8 {
      SevenSteps0();
    } else if i < 16 {
      SevenSteps1();
    } else if i < 24 {
      SevenSteps2();
    } else {
      SevenSteps3();
    }
  }

  lemma OneBit<T(!new)>(R: Ring<T>, x: T, y: T, e: nat)
    requires IsRing(R) && y == Pow(R, x, e)
    ensures R.mul(R.mul(y, y), x) == Pow(R, x, 2 * e + 1)
  {
    PowAdd(R, x, e, e);
  }

  lemma {:induction false} SevenPower(n: nat)
    requires n <= 32
    ensures SEVENS[n] == Pow(BeltRing(), 7, Pow2(n) - 1)
  {
    if n > 0 {
      SevenPower(n - 1);
      SevenStep(n - 1);
      BeltIsRing();
      OneBit(BeltRing(), 7, SEVENS[n - 1], Pow2(n - 1) - 1);
    }
  }

  /** e doubled k times. */
  ghost function Doubled(e: nat, k: nat): nat { if k == 0 then e else 2 * Doubled(e, k - 1) }

  lemma {:induction false} DoubledIs(e: nat, k: nat)
    ensures Doubled(e, k) == e * Pow2(k)
  {
    if k > 0 {
      DoubledIs(e, k - 1);
      TwiceAs(e, Pow2(k - 1));
    }
  }

  lemma TwiceAs(e: nat, p: nat)
    ensures e * (2 * p) == 2 * (e * p)
  {
  }

  /** If the last entry is seven to the power e, then entry i is seven to the power e doubled 32 - i times. */
  lemma {:induction false} RootIsSeven(i: nat, k: nat, e: nat)
    requires i + k == 32 && ROOTS[i + k] == Pow(BeltRing(), 7, e)
    ensures ROOTS[i] == Pow(BeltRing(), 7, Doubled(e, k))
    decreases k
  {
    if k > 0 {
      RootIsSeven(i + 1, k - 1, e);
      RootSquare(i + 1);
      BeltIsRing();
      SquareOf(BeltRing(), 7, ROOTS[i + 1], ROOTS[i], Doubled(e, k - 1));
    }
  }

  lemma SquareOf<T(!new)>(R: Ring<T>, x: T, y: T, z: T, e: nat)
    requires IsRing(R) && y == Pow(R, x, e) && z == R.mul(y, y)
    ensures z == Pow(R, x, 2 * e)
  {
    PowAdd(R, x, e, e);
  }

  lemma LastRoot(i: nat)
    requires i == 32
    ensures ROOTS[i] == Pow(BeltRing(), 7, Pow2(i) - 1)
  {
    SevenPower(i);
  }

  /* Primality, by the powers of the last table entry modulo a divisor. */

  ghost function Root32(): int { ROOTS[32] }

  lemma Root32ModDivisor(p: int)
    requires p > 1 && PRIME % p == 0
    ensures IntPow(Root32(), Pow2(31)) % p == (-1) % p
  {
    RootHalves(32);
    BeltPow(ROOTS[32], Pow2(31));
    DivisorCongruence(IntPow(Root32(), Pow2(31)), p);
  }

  lemma DivisorCongruence(x: int, p: int)
    requires p > 1 && PRIME % p == 0 && x % PRIME == PRIME - 1
    ensures x % p == (-1) % p
  {
    var k, c := x / PRIME + 1, PRIME / p;
    assert x == -1 + k * PRIME;
    assert PRIME == c * p;
    assert k * (c * p) == (k * c) * p;
    ModShift(-1, k * c, p);
  }

  /** No power of the root below 2^32 is one modulo a divisor of the prime. */
  lemma NoSmallOrder(p: int, d: nat)
    requires p > 1 && PRIME % p == 0 && 0 < d < Pow2(32)
    ensures IntPow(Root32(), d) % p != 1
  {
    Root32ModDivisor(p);
    NotOneBelow(Root32(), p, d, 32);
  }

  lemma NotOneBelow(g: int, p: int, d: nat, l: nat)
    requires p > 2 && l > 0 && IntPow(g, Pow2(l - 1)) % p == (-1) % p && 0 < d < Pow2(l)
    ensures IntPow(g, d) % p != 1
  {
    var t, o := OddMultiple(d, l);
    NotOne(g, p, d, Pow2(t), Pow2(l - 1), o);
  }

  /** If g^h is minus one and some multiple of d is an odd multiple of h, then g^d is not one. */
  lemma NotOne(g: int, p: int, d: nat, m: nat, h: nat, o: nat)
    requires p > 2 && IntPow(g, h) % p == (-1) % p && d * m == (2 * o + 1) * h
    ensures IntPow(g, d) % p != 1
  {
    IntIsRing();
    PowMul(IntRing(), g, d, m);
    assert (2 * o + 1) * h == h * (2 * o + 1);
    PowMul(IntRing(), g, h, 2 * o + 1);
    PowCongruent(IntPow(g, h), -1, 2 * o + 1, p);
    OddPow(IntRing(), -1, o);
    ModSmall(1, p);
    DivModUnique(-1, p, -1, p - 1);
    if IntPow(g, d) % p == 1 {
      PowCongruent(IntPow(g, d), 1, m, p);
      PowOne(IntRing(), m);
    }
  }

  lemma RootPowersDistinct(p: int, i: nat, j: nat)
    requires p > 1 && PRIME % p == 0 && i < j < Pow2(32)
    ensures IntPow(Root32(), i) % p != IntPow(Root32(), j) % p
  {
    RootOrder(p);
    NoSmallOrder(p, j - i);
    if IntPow(Root32(), i) % p == IntPow(Root32(), j) % p { EqualPowers(Root32(), Pow2(32), p, i, j); }
  }

  /** Multiplying both by g^(n-i): g^n is one and g^(n+j-i) is g^(j-i). */
  lemma EqualPowers(g: int, n: nat, p: int, i: nat, j: nat)
    requires p > 1 && i < j < n && IntPow(g, n) % p == 1 && IntPow(g, i) % p == IntPow(g, j) % p
    ensures IntPow(g, j - i) % p == 1
  {
    IntIsRing();
    var c := IntPow(g, n - i);
    PowAdd(IntRing(), g, i, n - i);
    PowAdd(IntRing(), g, j, n - i);
    ModMul(IntPow(g, i), c, p);
    ModMul(IntPow(g, j), c, p);
    PowAdd(IntRing(), g, n, j - i);
    ModMul(IntPow(g, n), IntPow(g, j - i), p);
  }

  lemma RootOrder(p: int)
    requires p > 1 && PRIME % p == 0
    ensures IntPow(Root32(), Pow2(32)) % p == 1
  {
    var g := Root32();
    IntIsRing();
    PowMul(IntRing(), g, Pow2(31), 2);
    PowSmall(IntRing(), IntPow(g, Pow2(31)));
    Root32ModDivisor(p);
    PowCongruent(IntPow(g, Pow2(31)), -1, 2, p);
    PowSmall(IntRing(), -1);
    ModSmall(1, p);
  }

  /* Counting. */

  ghost function Range(n: nat): set<int> {
    if n == 0 then {} else Range(n - 1) + {n - 1}
  }

  lemma {:induction false} RangeSize(n: nat)
    ensures |Range(n)| == n && forall i :: i in Range(n) <==> 0 <= i < n
  {
    if n > 0 { RangeSize(n - 1); }
  }

  lemma {:induction false} ImageSize(f: nat -> int, n: nat)
    requires forall i: nat, j: nat | i < j < n :: f(i) != f(j)
    ensures |set i: nat | i < n :: f(i)| == n
  {
    if n > 0 {
      ImageSize(f, n - 1);
      var s := set i: nat | i < n - 1 :: f(i);
      assert (set i: nat | i < n :: f(i)) == s + {f(n - 1)};
      assert f(n - 1) !in s;
    }
  }

  lemma SubsetSize<T>(s: set<T>, t: set<T>)
    requires s <= t
    ensures |s| <= |t|
    ensures |s| == |t| ==> s == t
  {
    assert t == s + (t - s);
  }

  /** n distinct values among 1 .. n are all of them. */
  lemma InjectionCovers(f: nat -> int, n: nat, x: int) returns (i: nat)
    requires forall i: nat, j: nat | i < j < n :: f(i) != f(j)
    requires forall i: nat | i < n :: 1 <= f(i) <= n
    requires 1 <= x <= n
    ensures i < n && f(i) == x
  {
    ImageSize(f, n);
    RangeSize(n + 1);
    var image := set i: nat | i < n :: f(i);
    SubsetSize(image, Range(n + 1) - {0});
    assert x in image;
    i :| i < n && f(i) == x;
  }

  lemma DivisorLarge(p: int)
    requires p > 1 && PRIME % p == 0
    ensures p >= Pow2(32)
  {
    var f := (i: nat) => IntPow(Root32(), i) % p;
    forall i: nat, j: nat | i < j < Pow2(32) ensures f(i) != f(j) {
      RootPowersDistinct(p, i, j);
    }
    ImageSize(f, Pow2(32));
    RangeSize(p);
    SubsetSize(set i: nat | i < Pow2(32) :: f(i), Range(p));
  }

  lemma LargeProduct(d: int, e: int)
    requires d >= Pow2(32) && e >= Pow2(32)
    ensures e * d > PRIME
  {
    Pow2Of32();
    MulMono(Pow2(32), e, d);
    MulMono(Pow2(32), d, Pow2(32));
  }

  lemma Codivisor(n: int, d: int) returns (e: int)
    requires 1 < d < n && n % d == 0
    ensures e > 1 && n == e * d && n % e == 0
  {
    e := n / d;
    assert n == e * d;
    DivModUnique(n, e, d, 0);
  }

  /** The modulus is prime. */
  lemma PrimeIsPrime()
    ensures IsPrime(PRIME)
  {
    forall d | 1 < d < PRIME ensures PRIME % d != 0 {
      if PRIME % d == 0 {
        var e := Codivisor(PRIME, d);
        DivisorLarge(d);
        DivisorLarge(e);
        LargeProduct(d, e);
      }
    }
  }
}

/** Inverses in the base field: Fermat's little theorem for its prime modulus. */
module Inverses {
  import opened Sequences
  import opened Modular
  import opened Rings
  import opened Goldilocks
  import opened Primality
  import Words

  /** A product of non-zero elements is non-zero. */
  lemma {:induction false} NoZeroDivisors(a: Belt, b: Belt)
    requires a != 0 && b != 0
    ensures BeltMul(a, b) != 0
    decreases a
  {
    if a == 1 {
      ModSmall(b, PRIME);
    } else {
      PrimeIsPrime();
      var q, r := PRIME / a, PRIME % a;
      if BeltMul(a, b) == 0 {
        assert PRIME == q * a + r;
        assert r * b == q * -(a * b) + b * PRIME by { assert (q * a) * b == q * (a * b); }
        var k := (a * b) / PRIME;
        assert a * b == k * PRIME;
        assert q * -(k * PRIME) == (-(q * k)) * PRIME;
        ModShift(0, b - q * k, PRIME);
        assert r * b == (b - q * k) * PRIME;
        NoZeroDivisors(r, b);
      }
    }
  }

  lemma CancelFactor(a: Belt, x: Belt, y: Belt)
    requires a != 0 && BeltMul(a, x) == BeltMul(a, y)
    ensures x == y
  {
    var B := BeltRing();
    BeltIsRing();
    MulSub(B, a, x, y);
    Units(B, BeltMul(a, x));
    SubIs(B, x, y, 0);
    Units(B, y);
    if B.sub(x, y) != 0 { NoZeroDivisors(a, B.sub(x, y)); }
  }

  /* Products over permutations. */

  ghost function Product(s: seq<Belt>): Belt {
    if s == [] then 1 else BeltMul(s[0], Product(s[1..]))
  }

  lemma {:induction false} ProductTakeOut(s: seq<Belt>, i: nat)
    requires i < |s|
    ensures Product(s) == BeltMul(s[i], Product(Without(s, i)))
  {
    if i == 0 {
      assert Without(s, 0) == s[1..];
    } else {
      var rest := Without(s, i);
      assert rest[1..] == Without(s[1..], i - 1);
      ProductTakeOut(s[1..], i - 1);
      BeltIsRing();
      Mul3(BeltRing(), s[0], s[i], Product(rest[1..]));
    }
  }

  lemma {:induction false} ProductOfPermutation(s: seq<Belt>, t: seq<Belt>)
    requires multiset(s) == multiset(t)
    ensures Product(s) == Product(t)
  {
    if s == [] {
      assert |multiset(t)| == 0;
    } else {
      assert s[0] in multiset(t);
      var i :| 0 <= i < |t| && t[i] == s[0];
      Removed(s, 0);
      Removed(t, i);
      assert Without(s, 0) == s[1..];
      ProductOfPermutation(s[1..], Without(t, i));
      ProductTakeOut(t, i);
    }
  }

  lemma {:induction false} ProductScaled(a: Belt, s: seq<Belt>, t: seq<Belt>)
    requires |s| == |t| && forall i | 0 <= i < |s| :: t[i] == BeltMul(a, s[i])
    ensures Product(t) == BeltMul(Pow(BeltRing(), a, |s|), Product(s))
  {
    var B := BeltRing();
    BeltIsRing();
    if s == [] {
      Units(B, 1);
    } else {
      ProductScaled(a, s[1..], t[1..]);
      var p := Pow(B, a, |s| - 1);
      Mul4(B, a, s[0], p, Product(s[1..]));
      Mul3(B, a, p, a);
    }
  }

  lemma {:induction false} ProductNonZero(s: seq<Belt>)
    requires forall i | 0 <= i < |s| :: s[i] != 0
    ensures Product(s) != 0
  {
    if s != [] {
      ProductNonZero(s[1..]);
      NoZeroDivisors(s[0], Product(s[1..]));
    }
  }

  ghost predicate Distinct(s: seq<Belt>) {
    forall i, j | 0 <= i < j < |s| :: s[i] != s[j]
  }

  lemma {:induction false} DistinctMultiplicity(s: seq<Belt>, x: Belt)
    requires Distinct(s)
    ensures multiset(s)[x] == if x in s then 1 else 0
  {
    if s != [] {
      assert s == [s[0]] + s[1..];
      DistinctMultiplicity(s[1..], x);
    }
  }

  lemma SameElements(s: seq<Belt>, t: seq<Belt>)
    requires Distinct(s) && Distinct(t) && forall x: Belt :: x in s <==> x in t
    ensures multiset(s) == multiset(t)
  {
    forall x: Belt ensures multiset(s)[x] == multiset(t)[x] {
      DistinctMultiplicity(s, x);
      DistinctMultiplicity(t, x);
    }
  }

  /* The non-zero elements and their multiples by a. */

  ghost function NonZero(): seq<Belt> { seq(PRIME - 1, i requires 0 <= i < PRIME - 1 => i + 1) }

  ghost function Multiples(a: Belt): seq<Belt> {
    seq(PRIME - 1, i requires 0 <= i < PRIME - 1 => BeltMul(a, i + 1))
  }

  lemma MultiplesDistinct(a: Belt, i: nat, j: nat)
    requires a != 0 && i < j < PRIME - 1
    ensures BeltMul(a, i + 1) != BeltMul(a, j + 1)
  {
    if BeltMul(a, i + 1) == BeltMul(a, j + 1) { CancelFactor(a, i + 1, j + 1); }
  }

  /** Every non-zero element is a multiple of a, by counting. */
  lemma MultiplesCover(a: Belt, x: Belt) returns (i: nat)
    requires a != 0 && x != 0
    ensures i < PRIME - 1 && BeltMul(a, i + 1) == x
  {
    var f := (i: nat) => if i < PRIME - 1 then BeltMul(a, i + 1) else 0;
    forall i: nat, j: nat | i < j < PRIME - 1 ensures f(i) != f(j) {
      MultiplesDistinct(a, i, j);
    }
    forall i: nat | i < PRIME - 1 ensures 1 <= f(i) <= PRIME - 1 {
      NoZeroDivisors(a, i + 1);
    }
    i := InjectionCovers(f, PRIME - 1, x);
  }

  lemma MultiplesPermute(a: Belt)
    requires a != 0
    ensures multiset(Multiples(a)) == multiset(NonZero())
  {
    var s, t := NonZero(), Multiples(a);
    forall x: Belt ensures x in s <==> x in t {
      if x != 0 {
        assert s[x - 1] == x;
        var i := MultiplesCover(a, x);
        assert t[i] == x;
      } else if x in t {
        var i :| 0 <= i < |t| && t[i] == x;
        NoZeroDivisors(a, i + 1);
      }
    }
    forall i, j | 0 <= i < j < |t| ensures t[i] != t[j] {
      MultiplesDistinct(a, i, j);
    }
    SameElements(t, s);
  }

  /** Fermat's little theorem for the base field. */
  lemma Fermat(a: Belt)
    requires a != 0
    ensures Pow(BeltRing(), a, PRIME - 1) == 1
  {
    MultiplesPermute(a);
    PowerOfPermutation(a, NonZero(), Multiples(a));
  }

  /** If multiplying by a permutes a list of non-zero elements, then a to the length of the list is one. */
  lemma PowerOfPermutation(a: Belt, s: seq<Belt>, t: seq<Belt>)
    requires |s| == |t| && forall i | 0 <= i < |s| :: t[i] == BeltMul(a, s[i])
    requires multiset(s) == multiset(t) && forall i | 0 <= i < |s| :: s[i] != 0
    ensures Pow(BeltRing(), a, |s|) == 1
  {
    var p := Pow(BeltRing(), a, |s|);
    ProductOfPermutation(t, s);
    ProductScaled(a, s, t);
    ProductNonZero(s);
    MulLaws(p, Product(s), 1);
    MulLaws(Product(s), 1, 1);
    CancelFactor(Product(s), p, 1);
  }

  /** The power that the inversion routine computes is the inverse. */
  lemma InverseIsPower(a: Belt)
    requires a != 0
    ensures BeltMul(a, Pow(BeltRing(), a, PRIME - 2)) == 1
  {
    Fermat(a);
    MulLaws(a, Pow(BeltRing(), a, PRIME - 2), 1);
  }

  /** The inversion routine inverts every non-zero element. */
  lemma BInvInverts(a: Belt)
    requires a != 0
    ensures BeltMul(a, Words.BInv(a)) == 1
  {
    Words.BInvIsPower(a);
    InverseIsPower(a);
  }
}

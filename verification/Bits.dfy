/** Powers of two and bit reversal. */
module Bits {

  function Pow2(n: nat): (p: nat)
    ensures p > 0
  {
    if n == 0 then 1 else 2 * Pow2(n - 1)
  }

  function Log2(n: nat): nat
    requires n > 0
  {
    if n == 1 then 0 else 1 + Log2(n / 2)
  }

  predicate IsPow2(n: nat) {
    n > 0 && Pow2(Log2(n)) == n
  }

  lemma {:induction false} Pow2Add(m: nat, n: nat)
    ensures Pow2(m + n) == Pow2(m) * Pow2(n)
  {
    if m > 0 {
      Pow2Add(m - 1, n);
      assert Pow2(m) * Pow2(n) == 2 * (Pow2(m - 1) * Pow2(n));
    }
  }

  lemma Doubling(r: nat, p: nat)
    ensures (2 * r) * p == r * (2 * p) && (2 * r + 1) * p == r * (2 * p) + p
  {
  }

  lemma {:induction false} Pow2Order(m: nat, n: nat)
    ensures Pow2(m) <= Pow2(n) <==> m <= n
  {
    if m > 0 && n > 0 { Pow2Order(m - 1, n - 1); }
  }

  lemma Pow2Of32()
    ensures Pow2(32) == 0x1_0000_0000
  {
    Pow2Add(8, 8);
    Pow2Add(16, 16);
  }

  /** The low l bits of n in reverse order. */
  ghost function Reversed(n: nat, l: nat): (r: nat)
    ensures r < Pow2(l)
  {
    if l == 0 then 0 else (if n % 2 == 1 then Pow2(l - 1) else 0) + Reversed(n / 2, l - 1)
  }

  /** The same number read from the top bit. */
  lemma {:induction false} ReversedTop(n: nat, l: nat)
    requires n < Pow2(l + 1)
    ensures Reversed(n, l + 1)
         == 2 * Reversed(if n < Pow2(l) then n else n - Pow2(l), l) + (if n < Pow2(l) then 0 else 1)
  {
    if l > 0 {
      ReversedTop(n / 2, l - 1);
    }
  }

  lemma {:induction false} ReversedTwice(n: nat, l: nat)
    requires n < Pow2(l)
    ensures Reversed(Reversed(n, l), l) == n
  {
    if l > 0 {
      ReversedTwice(n / 2, l - 1);
      ReversedTop(Reversed(n, l), l - 1);
    }
  }

  /** Shifts the bits of n into a 32-bit word; beyond 32 rounds the first bits are shifted out. */
  method BitReverse(n: nat, l: nat) returns (r: nat)
    ensures r == Reversed(n, l) % 0x1_0000_0000
    ensures l <= 32 ==> r == Reversed(n, l)
  {
    r := 0;
    var m := n;
    ghost var whole: nat := 0;
    for i := 0 to l
      invariant r == whole % 0x1_0000_0000 && SoFar(n, l, whole, m, l - i)
    {
      ShiftOne(n, l, whole, m, l - i);
      WrapOne(whole, r, m % 2);
      r := (2 * r + m % 2) % 0x1_0000_0000;
      whole := 2 * whole + m % 2;
      m := m / 2;
    }
    FitsWord(n, l, whole, m);
  }

  lemma FitsWord(n: nat, l: nat, whole: nat, m: nat)
    requires SoFar(n, l, whole, m, 0)
    ensures whole == Reversed(n, l) && (l <= 32 ==> whole < 0x1_0000_0000)
  {
    assert Pow2(0) == 1 && Reversed(m, 0) == 0;
    assert whole * 1 == whole;
    Pow2Of32();
    Pow2Order(l, 32);
  }

  /** The bits shifted so far, and the reversal of those that are left. */
  ghost predicate SoFar(n: nat, l: nat, whole: nat, m: nat, left: nat) {
    Reversed(n, l) == whole * Pow2(left) + Reversed(m, left)
  }

  lemma WrapOne(whole: nat, r: nat, b: nat)
    requires r == whole % 0x1_0000_0000
    ensures (2 * r + b) % 0x1_0000_0000 == (2 * whole + b) % 0x1_0000_0000
  {
  }

  lemma ShiftOne(n: nat, l: nat, whole: nat, m: nat, left: nat)
    requires left > 0 && SoFar(n, l, whole, m, left)
    ensures SoFar(n, l, 2 * whole + m % 2, m / 2, left - 1)
  {
    Doubling(whole, Pow2(left - 1));
  }

  lemma {:induction false} Log2Small(n: nat, b: nat)
    requires 0 < n < Pow2(b)
    ensures Log2(n) < b
  {
    if n > 1 { Log2Small(n / 2, b - 1); }
  }

  /** Doubling 0 < d < 2^l often enough gives an odd multiple of 2^(l-1). */
  lemma {:induction false} OddMultiple(d: nat, l: nat) returns (t: nat, o: nat)
    requires 0 < d < Pow2(l)
    ensures t < l && d * Pow2(t) == (2 * o + 1) * Pow2(l - 1)
  {
    if d % 2 == 1 {
      t, o := l - 1, d / 2;
    } else {
      t, o := OddMultiple(d / 2, l - 1);
      Twice(d / 2, Pow2(t), 2 * o + 1, Pow2(l - 2));
    }
  }

  lemma Twice(d: nat, p: nat, o: nat, q: nat)
    requires d * p == o * q
    ensures (2 * d) * p == o * (2 * q)
  {
    assert (2 * d) * p == 2 * (d * p) && o * (2 * q) == 2 * (o * q);
  }
}

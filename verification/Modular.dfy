/** Division with remainder and congruences on the integers. */
module Modular {

  lemma MulMono(a: int, b: int, c: nat)
    requires a <= b
    ensures a * c <= b * c && c * a <= c * b
  {
  }

  lemma DivModUnique(x: int, d: int, q: int, r: int)
    requires d > 0 && x == q * d + r && 0 <= r < d
    ensures x / d == q && x % d == r
  {
    var k := x / d - q;
    assert x == (x / d) * d + x % d;
    assert k * d == r - x % d by { assert (x / d) * d - q * d == k * d; }
    if k >= 1 { MulMono(1, k, d); }
    if k <= -1 { MulMono(k, -1, d); }
  }

  /** Numbers that differ by a multiple of d leave the same remainder. */
  lemma ModShift(x: int, k: int, d: int)
    requires d > 0
    ensures (x + k * d) % d == x % d
  {
    DivModUnique(x + k * d, d, x / d + k, x % d) by {
      assert x == (x / d) * d + x % d;
      assert (x / d + k) * d == (x / d) * d + k * d;
    }
  }

  lemma ModAdd(x: int, y: int, d: int)
    requires d > 0
    ensures (x % d + y) % d == (x + y) % d && (x + y % d) % d == (x + y) % d
  {
    assert x == (x / d) * d + x % d && y == (y / d) * d + y % d;
    ModShift(x % d + y, x / d, d);
    ModShift(x + y % d, y / d, d);
  }

  lemma ModSub(x: int, y: int, d: int)
    requires d > 0
    ensures (x % d - y) % d == (x - y) % d && (x - y % d) % d == (x - y) % d
  {
    assert x == (x / d) * d + x % d && y == (y / d) * d + y % d;
    ModShift(x % d - y, x / d, d);
    assert (x - y % d) == (x - y) + (y / d) * d;
    ModShift(x - y, y / d, d);
  }

  lemma ModMul(x: int, y: int, d: int)
    requires d > 0
    ensures ((x % d) * y) % d == (x * y) % d && (x * (y % d)) % d == (x * y) % d
  {
    var p, q := x / d, y / d;
    assert x == p * d + x % d && y == q * d + y % d;
    assert x * y == (x % d) * y + (p * y) * d by { assert (p * d) * y == (p * y) * d; }
    assert x * y == x * (y % d) + (x * q) * d by { assert x * (q * d) == (x * q) * d; }
    ModShift((x % d) * y, p * y, d);
    ModShift(x * (y % d), x * q, d);
  }

  lemma ModSmall(x: int, d: int)
    requires 0 <= x < d
    ensures x % d == x
  {
    DivModUnique(x, d, 0, x);
  }

  lemma AddMod(x: int, y: int, z: int, d: int)
    requires d > 0
    ensures ((x + y) % d + z) % d == (x + (y + z) % d) % d
  {
    SameSum(x + y, z, x, y + z, d);
  }

  lemma SameSum(s: int, z: int, x: int, t: int, d: int)
    requires d > 0 && s + z == x + t
    ensures (s % d + z) % d == (x + t % d) % d
  {
    ModAdd(s, z, d);
    ModAdd(x, t, d);
  }

  lemma MulMod(x: int, y: int, z: int, d: int)
    requires d > 0
    ensures ((x * y) % d * z) % d == (x * ((y * z) % d)) % d
  {
    ModMul(x * y, z, d);
    ModMul(x, y * z, d);
    assert (x * y) * z == x * (y * z);
  }

  lemma DistributeMod(x: int, y: int, z: int, d: int)
    requires d > 0
    ensures (x * ((y + z) % d)) % d == ((x * y) % d + (x * z) % d) % d
  {
    ModMul(x, y + z, d);
    assert x * (y + z) == x * y + x * z;
    ModAdd(x * y, x * z, d);
    ModAdd((x * y) % d, x * z, d);
  }
}

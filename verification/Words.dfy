/** Base field arithmetic as the machine computes it, on wrapping 64-bit words. */
module Words {
  import opened Modular
  import opened Bits
  import opened Rings
  import opened Goldilocks

  const WORD: int := 0x1_0000_0000_0000_0000
  const HALF: int := 0x1_0000_0000

  /** Montgomery factor squared, 2^128 modulo the prime. */
  const R2: int := 18446744065119617025
  /** Bound of Montgomery reduction, 2^64 times the prime. */
  const RP: int := 340282366841710300967557013911933812736

  type U64 = x: int | 0 <= x < WORD
  type U128 = x: int | 0 <= x < 0x1_0000_0000_0000_0000_0000_0000_0000_0000

  function WrappingSub(a: U64, b: U64): U64 {
    if a >= b then a - b else a - b + WORD
  }

  function WrappingAdd(a: U64, b: U64): U64 {
    if a + b < WORD then a + b else a + b - WORD
  }

  /** The 32-bit word 0 - c for a borrow bit c. */
  function BorrowMask(c: bool): U64 {
    if c then HALF - 1 else 0
  }

  /* Addition, subtraction and negation. */

  function BAdd(a: Belt, b: Belt): (r: Belt)
    ensures r == BeltAdd(a, b)
  {
    var b' := WrappingSub(PRIME, b);
    WrappingSub(WrappingSub(a, b'), BorrowMask(a < b'))
  }

  function BSub(a: Belt, b: Belt): (r: Belt)
    ensures r == BeltSub(a, b)
  {
    WrappingSub(WrappingSub(a, b), BorrowMask(a < b))
  }

  function BNeg(a: Belt): (r: Belt)
    ensures r == BeltSub(0, a)
  {
    if a != 0 then PRIME - a else 0
  }

  /* Reduction of wide words and multiplication. */

  /** low + 2^64 mid + 2^96 high */
  function Wide(low: U64, mid: int, high: U64): int {
    low + WORD * mid + WORD * HALF * high
  }

  /** The word after the first correction of the reduction, and whether that correction was taken;
      if it was, the word is reduced and the second correction is never taken. */
  function Folded(low: U64, mid: int, high: U64): (r: (U64, bool))
    requires 0 <= mid < HALF
    ensures r.1 ==> r.0 < PRIME
  {
    var low1 := WrappingSub(low, high);
    var low2 := if low < high then WrappingAdd(low1, PRIME) else low1;
    var product := mid * HALF - mid;
    var sum := WrappingAdd(product, low2);
    if product + low2 >= WORD then (WrappingSub(sum, PRIME), true) else (sum, false)
  }

  function Reduce159(low: U64, mid: int, high: U64): (r: U64)
    requires 0 <= mid < HALF
  {
    var (result, _) := Folded(low, mid, high);
    if result >= PRIME then result - PRIME else result
  }

  /** The reduction is exact precisely when the high word exceeds the low one by at most the prime. */
  lemma Reduce159Exact(low: U64, mid: int, high: U64)
    requires 0 <= mid < HALF
    ensures 0 <= Reduce159(low, mid, high) < PRIME
    ensures Reduce159(low, mid, high) == Wide(low, mid, high) % PRIME <==> high - low <= PRIME
  {
    var r := Reduce159(low, mid, high);
    var n := Wide(low, mid, high);
    var low2 := if low < high then WrappingAdd(WrappingSub(low, high), PRIME) else low - high;
    var s := mid * HALF - mid + low2;
    assert r == s || r == s - PRIME;
    // 2^64 = 2^32 - 1 + PRIME and 2^96 = (2^32 + 1) PRIME - 1
    var k := mid + (HALF + 1) * high;
    assert n == low - high + (mid * HALF - mid) + k * PRIME;
    var e := if r == s then 0 else 1;
    if high - low <= PRIME {
      var g := if low < high then 1 else 0;
      assert n == r + (k + e - g) * PRIME;
      DivModUnique(n, PRIME, k + e - g, r);
    } else {
      assert n == r - (HALF - 1) + (k + e - 2) * PRIME;
      if r >= HALF - 1 {
        DivModUnique(n, PRIME, k + e - 2, r - (HALF - 1));
      } else {
        DivModUnique(n, PRIME, k + e - 3, r - (HALF - 1) + PRIME);
      }
    }
  }

  /** A 160-bit argument on which it is not. */
  lemma Reduce159Inexact()
    ensures Reduce159(0, 0, 0xffff_ffff_ffff_ffff) != Wide(0, 0, 0xffff_ffff_ffff_ffff) % PRIME
  {
    Reduce159Exact(0, 0, 0xffff_ffff_ffff_ffff);
  }

  lemma WideParts(n: U128)
    ensures 0 <= n / (WORD * HALF) < HALF
    ensures Wide(n % WORD, (n / WORD) % HALF, n / (WORD * HALF)) == n
  {
    var h := n / WORD;
    DivModUnique(n, WORD * HALF, h / HALF, (h % HALF) * WORD + n % WORD);
  }

  function Reduce(n: U128): (r: Belt)
    ensures r == n % PRIME
  {
    WideParts(n);
    Reduce159Exact(n % WORD, (n / WORD) % HALF, n / (WORD * HALF));
    Reduce159(n % WORD, (n / WORD) % HALF, n / (WORD * HALF))
  }

  lemma ProductFits(a: Belt, b: Belt)
    ensures 0 <= a * b <= PRIME * PRIME
  {
    MulMono(a, PRIME, b);
    MulMono(b, PRIME, PRIME);
  }

  function BMul(a: Belt, b: Belt): (r: Belt)
    ensures r == BeltMul(a, b)
  {
    ProductFits(a, b);
    Reduce(a * b)
  }

  /* Montgomery form. */

  lemma MontReductionSteps(a: U128)
    requires a < RP
    ensures var x0, x1, x2 := a % HALF, (a / HALF) % HALF, a / WORD;
      && a == x2 * WORD + x1 * HALF + x0
      && x2 < PRIME
  {
  }

  /** The low half's contribution, folded once, is a residue. */
  lemma MontFold(x0: int, x1: int)
    requires 0 <= x0 < HALF && 0 <= x1 < HALF
    ensures var c := (x0 + x1) * HALF; 0 <= c - (x1 + (c / WORD) * PRIME) < PRIME
  {
    var s := x0 + x1;
    if s < HALF {
      DivModUnique(s * HALF, WORD, 0, s * HALF);
    } else {
      DivModUnique(s * HALF, WORD, 1, s * HALF - WORD);
    }
  }

  function MontReduction(a: U128): (r: Belt)
    requires a < RP
    ensures (r * WORD) % PRIME == a % PRIME
  {
    MontReductionSteps(a);
    var x1, x2 := (a / HALF) % HALF, a / WORD;
    var x0 := a % HALF;
    MontFold(x0, x1);
    var c: U128 := (x0 + x1) * HALF;
    var f := c / WORD;
    var d: U128 := c - (x1 + f * PRIME);
    MontIdentity(a, x0, x1, x2, f, if x2 >= d then 0 else 1);
    if x2 >= d then x2 - d else x2 + PRIME - d
  }

  /** 2^64 = 2^32 - 1 + P and 2^96 = (2^32 + 1) P - 1. */
  lemma MontIdentity(a: int, x0: int, x1: int, x2: int, f: int, g: int)
    requires a == x2 * WORD + x1 * HALF + x0
    ensures var d := (x0 + x1) * HALF - (x1 + f * PRIME); ((x2 - d + g * PRIME) * WORD) % PRIME == a % PRIME
  {
    var d := (x0 + x1) * HALF - (x1 + f * PRIME);
    var k := g * WORD - (x0 + x1) * (HALF + 1) + x1 + f * WORD;
    assert (x2 - d + g * PRIME) * WORD == a + k * PRIME;
    ModShift(a, k, PRIME);
  }

  /** The Montgomery image of a field element. */
  ghost function Mont(v: Belt): Belt { (v * WORD) % PRIME }

  /** 2^64 can be cancelled: 2^192 is one modulo the prime. */
  lemma CancelWord(r: Belt, s: Belt)
    requires (r * WORD) % PRIME == (s * WORD) % PRIME
    ensures r == s
  {
    forall x: Belt ensures (((x * WORD) % PRIME) * R2) % PRIME == x {
      ModMul(x * WORD, R2, PRIME);
      assert (x * WORD) * R2 == x + (x * ((WORD * R2 - 1) / PRIME)) * PRIME;
      ModShift(x, x * ((WORD * R2 - 1) / PRIME), PRIME);
      ModSmall(x, PRIME);
    }
  }

  /** The value of a reduction is the one residue that the factor 2^64 takes to its argument. */
  lemma MontReductionUnique(a: U128, s: Belt)
    requires a < RP && (s * WORD) % PRIME == a % PRIME
    ensures MontReduction(a) == s
  {
    CancelWord(MontReduction(a), s);
  }

  function Montiply(a: Belt, b: Belt): Belt {
    ProductFits(a, b);
    MontReduction(a * b)
  }

  function Montify(a: Belt): Belt {
    MulMono(a, PRIME, R2);
    MontReduction(a * R2)
  }

  lemma MontOfProduct(u: Belt, v: Belt)
    ensures Montiply(Mont(u), Mont(v)) == Mont(BeltMul(u, v))
  {
    ProductFits(Mont(u), Mont(v));
    ModMul(u * WORD, Mont(v), PRIME);
    ModMul(u * WORD, v * WORD, PRIME);
    ModMul(Mont(BeltMul(u, v)), WORD, PRIME);
    ModMul(BeltMul(u, v) * WORD, WORD, PRIME);
    ModMul(u * v, WORD * WORD, PRIME);
    assert (u * WORD) * (v * WORD) == (u * v) * (WORD * WORD);
    MontReductionUnique(Mont(u) * Mont(v), Mont(BeltMul(u, v)));
  }

  lemma MontifyIsMont(v: Belt)
    ensures Montify(v) == Mont(v) && MontReduction(Mont(v)) == v
  {
    ModMul(v * WORD, WORD, PRIME);
    ModShift(v * R2, v * ((WORD * WORD - R2) / PRIME), PRIME);
    assert (v * WORD) * WORD == v * R2 + (v * ((WORD * WORD - R2) / PRIME)) * PRIME;
    MulMono(v, PRIME, R2);
    MontReductionUnique(v * R2, Mont(v));
    MontReductionUnique(Mont(v), v);
  }

  /** y is the Montgomery image of x^e. */
  ghost predicate MontPower(y: Belt, x: Belt, e: nat) {
    y == Mont(Pow(BeltRing(), x, e))
  }

  lemma MontPowerAdd(y: Belt, z: Belt, x: Belt, d: nat, e: nat)
    requires MontPower(y, x, d) && MontPower(z, x, e)
    ensures MontPower(Montiply(y, z), x, d + e)
  {
    BeltIsRing();
    PowAdd(BeltRing(), x, d, e);
    MontOfProduct(Pow(BeltRing(), x, d), Pow(BeltRing(), x, e));
  }

  /* Addition chains, for any multiplication under which exponents add. */

  /** a multiplied with itself b times over. */
  function Squared<T>(mul: (T, T) -> T, a: T, b: nat): T {
    if b == 0 then a else mul(Squared(mul, a, b - 1), Squared(mul, a, b - 1))
  }

  /** The addition chain of the inverse. */
  function InverseChain<T>(mul: (T, T) -> T, y: T): T {
    var y2 := mul(y, mul(y, y));
    var y3 := mul(y, mul(y2, y2));
    var y5 := mul(y2, Squared(mul, y3, 2));
    var y10 := mul(y5, Squared(mul, y5, 5));
    var y20 := mul(y10, Squared(mul, y10, 10));
    var y30 := mul(y10, Squared(mul, y20, 10));
    var y31 := mul(y, mul(y30, y30));
    var dup := mul(Squared(mul, y31, 32), y31);
    mul(y, mul(dup, dup))
  }

  ghost predicate Pick<T>(y: T, z: T, d: nat, e: nat) { true }

  /** p(y, e) says that y stands for the power e; products stand for sums. */
  ghost predicate Exponential<T(!new)>(mul: (T, T) -> T, p: (T, nat) -> bool) {
    forall y: T, z: T, d: nat, e: nat {:trigger Pick(y, z, d, e)} :: p(y, d) && p(z, e) ==> p(mul(y, z), d + e)
  }

  lemma Multiplied<T(!new)>(mul: (T, T) -> T, p: (T, nat) -> bool, y: T, z: T, d: nat, e: nat)
    requires Exponential(mul, p) && p(y, d) && p(z, e)
    ensures p(mul(y, z), d + e)
  {
    assert Pick(y, z, d, e);
  }

  lemma {:induction false} SquaredPower<T(!new)>(mul: (T, T) -> T, p: (T, nat) -> bool, y: T, e: nat, b: nat)
    requires Exponential(mul, p) && p(y, e)
    ensures p(Squared(mul, y, b), e * Pow2(b))
  {
    if b == 0 {
      assert e * Pow2(0) == e;
    } else {
      var f := e * Pow2(b - 1);
      SquaredPower(mul, p, y, e, b - 1);
      Multiplied(mul, p, Squared(mul, y, b - 1), Squared(mul, y, b - 1), f, f);
      TwiceProduct(e, Pow2(b - 1));
    }
  }

  lemma TwiceProduct(e: nat, p: nat)
    ensures e * (2 * p) == e * p + e * p
  {
  }

  /** From the powers 2^a - 1 and 2^b - 1 the power 2^(a+b) - 1. */
  lemma ChainStep<T(!new)>(mul: (T, T) -> T, p: (T, nat) -> bool, y: T, z: T, a: nat, b: nat)
    requires Exponential(mul, p) && p(y, Pow2(a) - 1) && p(z, Pow2(b) - 1)
    ensures p(mul(y, Squared(mul, z, a)), Pow2(a + b) - 1)
  {
    var m, n := Pow2(a), Pow2(b);
    var e := (n - 1) * m;
    assert m - 1 + e == m * n - 1;
    Pow2Add(a, b);
    SquaredPower(mul, p, z, n - 1, a);
    Multiplied(mul, p, y, Squared(mul, z, a), m - 1, e);
  }

  lemma ChainTail<T(!new)>(mul: (T, T) -> T, p: (T, nat) -> bool, y: T, z: T, e: nat, n: nat, w: nat)
    requires Exponential(mul, p) && p(y, 1) && p(z, e) && w == Pow2(n)
    ensures var dup := mul(Squared(mul, z, n), z); p(mul(y, mul(dup, dup)), 1 + 2 * (e * w + e))
  {
    SquaredPower(mul, p, z, e, n);
    Multiplied(mul, p, Squared(mul, z, n), z, e * w, e);
    var dup, d := mul(Squared(mul, z, n), z), e * w + e;
    Multiplied(mul, p, dup, dup, d, d);
    Multiplied(mul, p, y, mul(dup, dup), 1, d + d);
  }

  lemma SquaredOnce<T>(mul: (T, T) -> T, y: T)
    ensures Squared(mul, y, 1) == mul(y, y)
  {
    assert Squared(mul, y, 0) == y;
  }

  /** The chain stands for the power P - 2. */
  lemma ChainPower<T(!new)>(mul: (T, T) -> T, p: (T, nat) -> bool, y: T)
    requires Exponential(mul, p) && p(y, 1)
    ensures p(InverseChain(mul, y), PRIME - 2)
  {
    SquaredOnce(mul, y);
    ChainStep(mul, p, y, y, 1, 1);
    var y2 := mul(y, mul(y, y));
    SquaredOnce(mul, y2);
    ChainStep(mul, p, y, y2, 1, 2);
    var y3 := mul(y, mul(y2, y2));
    ChainStep(mul, p, y2, y3, 2, 3);
    var y5 := mul(y2, Squared(mul, y3, 2));
    ChainStep(mul, p, y5, y5, 5, 5);
    var y10 := mul(y5, Squared(mul, y5, 5));
    ChainStep(mul, p, y10, y10, 10, 10);
    var y20 := mul(y10, Squared(mul, y10, 10));
    ChainStep(mul, p, y10, y20, 10, 20);
    var y30 := mul(y10, Squared(mul, y20, 10));
    SquaredOnce(mul, y30);
    ChainStep(mul, p, y, y30, 1, 30);
    Pow2Of32();
    ChainTail(mul, p, y, mul(y, mul(y30, y30)), Pow2(31) - 1, 32, Pow2(32));
  }

  function BInv(a: Belt): Belt {
    MontReduction(InverseChain(Montiply, Montify(a)))
  }

  lemma MontExponential(x: Belt)
    ensures Exponential(Montiply, (y: Belt, e: nat) => MontPower(y, x, e))
  {
    forall y: Belt, z: Belt, d: nat, e: nat | MontPower(y, x, d) && MontPower(z, x, e)
      ensures MontPower(Montiply(y, z), x, d + e)
    {
      MontPowerAdd(y, z, x, d, e);
    }
  }

  lemma MontOfReduction(a: Belt)
    ensures MontPower(a, MontReduction(a), 1)
  {
    BeltIsRing();
    PowSmall(BeltRing(), MontReduction(a));
    ModSmall(a, PRIME);
  }

  /** Squares b times: what the result stands for is the 2^b-th power of what a stands for. */
  method MontTwoPow(a: Belt, b: nat) returns (res: Belt)
    ensures res == Squared(Montiply, a, b)
    ensures MontReduction(res) == Pow(BeltRing(), MontReduction(a), Pow2(b))
  {
    res := a;
    for i := 0 to b
      invariant res == Squared(Montiply, a, i)
    {
      res := Montiply(res, res);
    }
    TwoPowIsPower(a, MontReduction(a), b);
  }

  lemma TwoPowIsPower(a: Belt, x: Belt, b: nat)
    requires MontReduction(a) == x
    ensures MontReduction(Squared(Montiply, a, b)) == Pow(BeltRing(), x, Pow2(b))
  {
    MontOfReduction(a);
    MontExponential(x);
    SquaredPower(Montiply, (y: Belt, e: nat) => MontPower(y, x, e), a, 1, b);
    MontifyIsMont(Pow(BeltRing(), x, Pow2(b)));
  }

  lemma BInvIsPower(a: Belt)
    ensures BInv(a) == Pow(BeltRing(), a, PRIME - 2)
  {
    MontifyIsMont(a);
    BeltIsRing();
    PowSmall(BeltRing(), a);
    MontExponential(a);
    ChainPower(Montiply, (y: Belt, e: nat) => MontPower(y, a, e), Montify(a));
    MontifyIsMont(Pow(BeltRing(), a, PRIME - 2));
  }
}

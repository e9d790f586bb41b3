/** The in-place number-theoretic transform: bit reversal, then log n butterfly passes. */
module Ntt {
  import opened Modular
  import opened Bits
  import opened Rings
  import opened PowerSeries
  import opened Polynomials

  /* Splitting a coefficient list into its even and odd positions. */

  ghost function Evens<T>(x: seq<T>): seq<T> {
    seq(|x| / 2, i requires 0 <= i < |x| / 2 => x[2 * i])
  }

  ghost function Odds<T>(x: seq<T>): seq<T> {
    seq(|x| / 2, i requires 0 <= i < |x| / 2 => x[2 * i + 1])
  }

  lemma {:induction false} EvalSplit<T(!new)>(R: Ring<T>, x: seq<T>, y: T)
    requires IsRing(R) && |x| % 2 == 0
    ensures Eval(R, x, y)
         == R.add(Eval(R, Evens(x), R.mul(y, y)), R.mul(Eval(R, Odds(x), R.mul(y, y)), y))
  {
    var y2 := R.mul(y, y);
    if x == [] {
      Units(R, y);
      Units(R, R.zero);
    } else {
      var t := x[2..];
      EvalSplit(R, t, y);
      assert Evens(x) == [x[0]] + Evens(t) && Odds(x) == [x[1]] + Odds(t);
      assert x[1..][1..] == t;
      var e, o := Eval(R, Evens(t), y2), Eval(R, Odds(t), y2);
      SplitStep(R, x[0], x[1], e, o, y);
    }
  }

  /** x0 + y (x1 + y (e + o y)) == (x0 + y^2 e) + (x1 + y^2 o) y */
  lemma SplitStep<T(!new)>(R: Ring<T>, x0: T, x1: T, e: T, o: T, y: T)
    requires IsRing(R)
    ensures var y2 := R.mul(y, y);
      R.add(x0, R.mul(y, R.add(x1, R.mul(y, R.add(e, R.mul(o, y))))))
      == R.add(R.add(x0, R.mul(y2, e)), R.mul(R.add(x1, R.mul(y2, o)), y))
  {
    var y2 := R.mul(y, y);
    var oy := R.mul(o, y);
    Distribute(R, y, e, oy);
    Distribute(R, y, x1, R.mul(y, R.add(e, oy)));
    Distribute(R, y, R.mul(y, e), R.mul(y, oy));
    Mul3(R, y, y, e);
    Mul3(R, y, y, oy);
    Mul3(R, y2, o, y);
    Distribute(R, y, x1, R.mul(y2, o));
    Mul3(R, y, x1, y);
    Mul3(R, y, R.mul(y2, o), y);
    var p, q, s := R.mul(y, x1), R.mul(y2, e), R.mul(y2, oy);
    Add3(R, q, p, s);
    Add3(R, p, q, s);
    Add3(R, x0, q, R.add(p, s));
  }

  /** The list that block c of the pass at depth d transforms. */
  ghost function Part<T>(x: seq<T>, d: nat, c: nat): seq<T>
    decreases d
  {
    if d == 0 then x
    else if c % 2 == 0 then Evens(Part(x, d - 1, c / 2))
    else Odds(Part(x, d - 1, c / 2))
  }

  lemma {:induction false} PartLength<T>(x: seq<T>, l: nat, d: nat, c: nat)
    requires |x| == Pow2(l) && d <= l
    ensures |Part(x, d, c)| == Pow2(l - d)
  {
    if d > 0 { PartLength(x, l, d - 1, c / 2); }
  }

  lemma {:induction false} PartElement<T>(x: seq<T>, l: nat, d: nat, c: nat, i: nat)
    requires |x| == Pow2(l) && d <= l && i < Pow2(l - d)
    ensures |Part(x, d, c)| == Pow2(l - d)
    ensures Position(i, c, d) < |x| && Part(x, d, c)[i] == x[Position(i, c, d)]
  {
    PositionStep(i, c, d);
    if d > 0 {
      PartOfPart(x, l, d, c, i);
      PartElement(x, l, d - 1, c / 2, 2 * i + c % 2);
    }
  }

  lemma PartOfPart<T>(x: seq<T>, l: nat, d: nat, c: nat, i: nat)
    requires |x| == Pow2(l) && 0 < d <= l && i < Pow2(l - d)
    ensures |Part(x, d, c)| == Pow2(l - d) && |Part(x, d - 1, c / 2)| == Pow2(l - d + 1)
    ensures Part(x, d, c)[i] == Part(x, d - 1, c / 2)[2 * i + c % 2]
  {
    PartLength(x, l, d, c);
    PartLength(x, l, d - 1, c / 2);
  }

  /** Where entry i of part c at depth d comes from. */
  ghost function Position(i: nat, c: nat, d: nat): nat { i * Pow2(d) + Reversed(c, d) }

  lemma PositionStep(i: nat, c: nat, d: nat)
    ensures Position(i, c, d) == if d == 0 then i else Position(2 * i + c % 2, c / 2, d - 1)
  {
    if d > 0 { Doubling(i, Pow2(d - 1)); }
  }

  /* One block and one butterfly. */

  /** Positions k .. k + |z| of a hold the values of z at the powers of w. */
  ghost predicate BlockIs<T>(R: Ring<T>, a: seq<T>, k: nat, z: seq<T>, w: T) {
    && k + |z| <= |a|
    && forall j: nat | j < |z| :: a[k + j] == Eval(R, z, Pow(R, w, j))
  }

  /** Positions i and j after crossing them with twiddle factor t. */
  ghost predicate Crossed<T>(R: Ring<T>, a: seq<T>, b: seq<T>, i: nat, j: nat, t: T) {
    && i < |a| == |b| && j < |a|
    && b[i] == R.add(a[i], R.mul(a[j], t))
    && b[j] == R.sub(a[i], R.mul(a[j], t))
  }

  /** What one butterfly loop makes of block c, the 2m positions from 2mc on. */
  ghost predicate Butterflied<T>(R: Ring<T>, a: seq<T>, b: seq<T>, c: nat, m: nat, w: T) {
    forall j: nat | j < m :: Crossed(R, a, b, c * (2 * m) + j, c * (2 * m) + j + m, Pow(R, w, j))
  }

  /** The values at w^j and w^(j+m) = -w^j from those of the two halves at w^2j. */
  lemma ButterflyValues<T(!new)>(R: Ring<T>, z: seq<T>, w: T, m: nat, j: nat)
    requires IsRing(R) && |z| == 2 * m && j < m && Pow(R, w, m) == Neg(R, R.one)
    ensures var e, o := Eval(R, Evens(z), Pow(R, R.mul(w, w), j)), Eval(R, Odds(z), Pow(R, R.mul(w, w), j));
      && Eval(R, z, Pow(R, w, j)) == R.add(e, R.mul(o, Pow(R, w, j)))
      && Eval(R, z, Pow(R, w, j + m)) == R.sub(e, R.mul(o, Pow(R, w, j)))
  {
    var y := Pow(R, w, j);
    PowOfProduct(R, w, w, j);
    EvalSplit(R, z, y);
    PowAdd(R, w, j, m);
    var y' := Pow(R, w, j + m);
    NegMul(R, y, R.one);
    Units(R, y);
    assert y' == Neg(R, y);
    NegMul(R, y, Neg(R, y));
    NegMul(R, y, y);
    NegNeg(R, R.mul(y, y));
    EvalSplit(R, z, y');
    var e, o := Eval(R, Evens(z), Pow(R, R.mul(w, w), j)), Eval(R, Odds(z), Pow(R, R.mul(w, w), j));
    NegMul(R, o, y);
    SubIs(R, e, R.mul(o, y), e);
  }

  lemma BlockMerges<T(!new)>(R: Ring<T>, a: seq<T>, b: seq<T>, c: nat, z: seq<T>, w: T, m: nat)
    requires IsRing(R) && |z| == 2 * m && Pow(R, w, m) == Neg(R, R.one)
    requires BlockIs(R, a, c * (2 * m), Evens(z), R.mul(w, w))
    requires BlockIs(R, a, c * (2 * m) + m, Odds(z), R.mul(w, w))
    requires |a| == |b| && Butterflied(R, a, b, c, m, w)
    ensures BlockIs(R, b, c * (2 * m), z, w)
  {
    var k := c * (2 * m);
    forall j: nat | j < 2 * m ensures b[k + j] == Eval(R, z, Pow(R, w, j)) {
      var i := if j < m then j else j - m;
      assert Crossed(R, a, b, k + i, k + i + m, Pow(R, w, i));
      EntryMerges(R, a, b, k, z, w, m, i);
    }
  }

  lemma EntryMerges<T(!new)>(R: Ring<T>, a: seq<T>, b: seq<T>, k: nat, z: seq<T>, w: T, m: nat, i: nat)
    requires IsRing(R) && |z| == 2 * m && Pow(R, w, m) == Neg(R, R.one) && i < m
    requires BlockIs(R, a, k, Evens(z), R.mul(w, w)) && BlockIs(R, a, k + m, Odds(z), R.mul(w, w))
    requires |a| == |b| && Crossed(R, a, b, k + i, k + i + m, Pow(R, w, i))
    ensures b[k + i] == Eval(R, z, Pow(R, w, i)) && b[k + i + m] == Eval(R, z, Pow(R, w, i + m))
  {
    ButterflyValues(R, z, w, m, i);
    assert a[k + i] == Eval(R, Evens(z), Pow(R, R.mul(w, w), i));
    assert a[(k + m) + i] == Eval(R, Odds(z), Pow(R, R.mul(w, w), i));
  }

  /** Block c of the pass at depth d holds the transform of its part. */
  ghost predicate BlockDone<T>(R: Ring<T>, a: seq<T>, x: seq<T>, root: T, l: nat, d: nat, c: nat)
    requires d <= l
  {
    BlockIs(R, a, c * Pow2(l - d), Part(x, d, c), Pow(R, root, Pow2(d)))
  }

  ghost predicate Level<T>(R: Ring<T>, a: seq<T>, x: seq<T>, root: T, l: nat, d: nat)
    requires d <= l
  {
    forall c: nat | c < Pow2(d) :: BlockDone(R, a, x, root, l, d, c)
  }

  lemma RootAtDepth<T(!new)>(R: Ring<T>, root: T, l: nat, d: nat)
    requires IsRing(R) && d < l && Pow(R, root, Pow2(l - 1)) == Neg(R, R.one)
    ensures var w := Pow(R, root, Pow2(d));
      Pow(R, w, Pow2(l - d - 1)) == Neg(R, R.one) && Pow(R, root, Pow2(d + 1)) == R.mul(w, w)
  {
    Pow2Add(d, l - d - 1);
    PowMul(R, root, Pow2(d), Pow2(l - d - 1));
    PowMul(R, root, Pow2(d), 2);
    PowSmall(R, Pow(R, root, Pow2(d)));
  }

  lemma HalfBlocks<T>(R: Ring<T>, a: seq<T>, x: seq<T>, root: T, l: nat, d: nat, c: nat, m: nat, v: T)
    requires d < l && m == Pow2(l - d - 1) && v == Pow(R, root, Pow2(d + 1))
    requires BlockDone(R, a, x, root, l, d + 1, 2 * c) && BlockDone(R, a, x, root, l, d + 1, 2 * c + 1)
    ensures BlockIs(R, a, c * (2 * m), Evens(Part(x, d, c)), v)
    ensures BlockIs(R, a, c * (2 * m) + m, Odds(Part(x, d, c)), v)
  {
    Doubling(c, m);
    Children(x, d, c);
    assert l - (d + 1) == l - d - 1;
  }

  lemma Children<T>(x: seq<T>, d: nat, c: nat)
    ensures Part(x, d + 1, 2 * c) == Evens(Part(x, d, c)) && Part(x, d + 1, 2 * c + 1) == Odds(Part(x, d, c))
  {
  }

  lemma BlockUp<T(!new)>(R: Ring<T>, a: seq<T>, b: seq<T>, x: seq<T>, root: T, l: nat, d: nat, c: nat)
    requires IsRing(R) && |x| == Pow2(l) && d < l && Pow(R, root, Pow2(l - 1)) == Neg(R, R.one)
    requires BlockDone(R, a, x, root, l, d + 1, 2 * c) && BlockDone(R, a, x, root, l, d + 1, 2 * c + 1)
    requires |a| == |b| && Butterflied(R, a, b, c, Pow2(l - d - 1), Pow(R, root, Pow2(d)))
    ensures BlockDone(R, b, x, root, l, d, c)
  {
    var m, w, z := Pow2(l - d - 1), Pow(R, root, Pow2(d)), Part(x, d, c);
    RootAtDepth(R, root, l, d);
    PartLength(x, l, d, c);
    HalfBlocks(R, a, x, root, l, d, c, m, R.mul(w, w));
    BlockMerges(R, a, b, c, z, w, m);
  }

  lemma BottomLevel<T(!new)>(R: Ring<T>, a: seq<T>, x: seq<T>, root: T, l: nat)
    requires IsRing(R) && |a| == |x| == Pow2(l)
    requires forall k: nat | k < |x| :: a[k] == x[Reversed(k, l)]
    ensures Level(R, a, x, root, l, l)
  {
    var w := Pow(R, root, Pow2(l));
    forall c: nat | c < Pow2(l) ensures BlockDone(R, a, x, root, l, l, c) {
      PartElement(x, l, l, c, 0);
      Units(R, x[Reversed(c, l)]);
      Units(R, Pow(R, w, 0));
      assert Part(x, l, c)[1..] == [];
    }
  }

  /* The loops. */

  method Power<T(!new)>(R: Ring<T>, base: T, exponent: nat) returns (c: T)
    requires IsRing(R)
    ensures c == Pow(R, base, exponent)
  {
    c := R.one;
    if exponent == 0 { return; }
    var a, b := base, exponent;
    Units(R, Pow(R, base, exponent));
    while b > 1
      invariant b >= 1
      invariant R.mul(c, Pow(R, a, b)) == Pow(R, base, exponent)
    {
      PowMul(R, a, 2, b / 2);
      PowSmall(R, a);
      if b % 2 == 0 {
        a := R.mul(a, a);
        b := b / 2;
      } else {
        PowAdd(R, a, 2 * (b / 2), 1);
        Mul3(R, c, a, Pow(R, R.mul(a, a), b / 2));
        Mul3(R, a, Pow(R, R.mul(a, a), b / 2), a);
        c := R.mul(c, a);
        a := R.mul(a, a);
        b := (b - 1) / 2;
      }
    }
    PowSmall(R, a);
    c := R.mul(c, a);
  }

  /** Exchanges each position with its bit reversal, once. */
  method Permute<T>(x: array<T>, l: nat)
    requires x.Length == Pow2(l) && l <= 32
    modifies x
    ensures forall k: nat | k < x.Length :: x[k] == old(x[Reversed(k, l)])
  {
    for k := 0 to x.Length
      invariant forall p: nat | p < x.Length ::
        x[p] == if p < k || Reversed(p, l) < k then old(x[Reversed(p, l)]) else old(x[p])
    {
      var rk := BitReverse(k, l);
      ReversedTwice(k, l);
      forall p: nat | p < x.Length ensures Reversed(Reversed(p, l), l) == p {
        ReversedTwice(p, l);
      }
      if k < rk {
        x[rk], x[k] := x[k], x[rk];
      }
    }
  }

  method Butterfly<T(!new)>(R: Ring<T>, x: array<T>, k: nat, m: nat, wm: T, ghost c: nat)
    requires IsRing(R) && k == c * (2 * m) && k + 2 * m <= x.Length
    modifies x
    ensures Butterflied(R, old(x[..]), x[..], c, m, wm)
    ensures forall p: nat | p < x.Length && !(k <= p < k + 2 * m) :: x[p] == old(x[p])
  {
    var w := R.one;
    ghost var a := x[..];
    for j := 0 to m
      invariant w == Pow(R, wm, j)
      invariant forall i: nat | i < j :: Crossed(R, a, x[..], k + i, k + i + m, Pow(R, wm, i))
      invariant forall p: nat | p < x.Length && !(k <= p < k + j) && !(k + m <= p < k + m + j) :: x[p] == a[p]
    {
      var u, v := x[k + j], R.mul(x[k + j + m], w);
      x[k + j] := R.add(u, v);
      x[k + j + m] := R.sub(u, v);
      w := R.mul(w, wm);
    }
  }

  /** One pass: a butterfly on every block of 2m positions. */
  method Pass<T(!new)>(R: Ring<T>, x: array<T>, m: nat, wm: T, ghost blocks: nat)
    requires IsRing(R) && m > 0 && x.Length == blocks * (2 * m)
    modifies x
    ensures forall c: nat | c < blocks :: Butterflied(R, old(x[..]), x[..], c, m, wm)
  {
    var k := 0;
    ghost var a, done := x[..], 0;
    while k < x.Length
      invariant k == done * (2 * m) && done <= blocks
      invariant forall c: nat | c < done :: Butterflied(R, a, x[..], c, m, wm)
      invariant forall p: nat | k <= p < x.Length :: x[p] == a[p]
      decreases x.Length - k
    {
      NextBlock(done, blocks, m);
      ghost var before := x[..];
      Butterfly(R, x, k, m, wm, done);
      ButterflyFrame(R, a, before, x[..], done, m, wm);
      done := done + 1;
      k := k + 2 * m;
    }
    if done < blocks { NextBlock(done, blocks, m); }
  }

  lemma NextBlock(c: nat, blocks: nat, m: nat)
    requires c * (2 * m) < blocks * (2 * m) || c < blocks
    ensures c < blocks && c * (2 * m) + 2 * m <= blocks * (2 * m)
  {
    if c >= blocks {
      MulMono(blocks, c, 2 * m);
    } else {
      MulMono(c + 1, blocks, 2 * m);
      OneMore(c, 2 * m);
    }
  }

  lemma OneMore(c: nat, w: nat)
    ensures (c + 1) * w == c * w + w
  {
  }

  /** A butterfly on one block leaves the others as they were. */
  lemma ButterflyFrame<T>(R: Ring<T>, a: seq<T>, before: seq<T>, after: seq<T>, done: nat, m: nat, w: T)
    requires |a| == |before| == |after| && done * (2 * m) + 2 * m <= |a|
    requires forall c: nat | c < done :: Butterflied(R, a, before, c, m, w)
    requires forall p: nat | done * (2 * m) <= p < |a| :: before[p] == a[p]
    requires forall p: nat | p < |a| && !(done * (2 * m) <= p < done * (2 * m) + 2 * m) :: after[p] == before[p]
    requires Butterflied(R, before, after, done, m, w)
    ensures forall c: nat | c <= done :: Butterflied(R, a, after, c, m, w)
  {
    forall c: nat | c <= done ensures Butterflied(R, a, after, c, m, w) {
      if c < done {
        NextBlock(c, done, m);
        assert Butterflied(R, a, before, c, m, w);
        SameBlock(R, a, before, a, after, c, m, w);
      } else {
        SameBlock(R, before, after, a, after, c, m, w);
      }
    }
  }

  lemma SameBlock<T>(R: Ring<T>, a: seq<T>, b: seq<T>, a': seq<T>, b': seq<T>, c: nat, m: nat, w: T)
    requires |a| == |b| == |a'| == |b'| && c * (2 * m) + 2 * m <= |a| && Butterflied(R, a, b, c, m, w)
    requires forall p: nat | c * (2 * m) <= p < c * (2 * m) + 2 * m :: a[p] == a'[p] && b[p] == b'[p]
    ensures Butterflied(R, a', b', c, m, w)
  {
    forall j: nat | j < m ensures Crossed(R, a', b', c * (2 * m) + j, c * (2 * m) + j + m, Pow(R, w, j)) {
      var i := c * (2 * m) + j;
      assert Crossed(R, a, b, i, i + m, Pow(R, w, j));
      SameCross(R, a, b, a', b', i, i + m, Pow(R, w, j));
    }
  }

  lemma SameCross<T>(R: Ring<T>, a: seq<T>, b: seq<T>, a': seq<T>, b': seq<T>, i: nat, j: nat, t: T)
    requires Crossed(R, a, b, i, j, t) && |a| == |a'| == |b'|
    requires a[i] == a'[i] && a[j] == a'[j] && b[i] == b'[i] && b[j] == b'[j]
    ensures Crossed(R, a', b', i, j, t)
  {
  }

  /** Value k of the transform of x: the sum of x_j root^(jk). */
  ghost function Dft<T>(R: Ring<T>, x: seq<T>, root: T, k: nat): T {
    Sum(R, (j: nat) => R.mul(Coef(R, x, j), Pow(R, root, j * k)), |x|)
  }

  lemma DftIsEval<T(!new)>(R: Ring<T>, x: seq<T>, root: T, k: nat)
    requires IsRing(R)
    ensures Dft(R, x, root, k) == Eval(R, x, Pow(R, root, k))
  {
    EvalIsSum(R, x, Pow(R, root, k));
    var f := (j: nat) => R.mul(Coef(R, x, j), Pow(R, root, j * k));
    var g := (j: nat) => R.mul(Coef(R, x, j), Pow(R, Pow(R, root, k), j));
    forall j: nat | j < |x| ensures f(j) == g(j) {
      assert j * k == k * j;
      PowMul(R, root, k, j);
    }
    SumExt(R, f, g, |x|);
  }

  /** The root condition under which a list of n = 2^l values can be transformed. */
  ghost predicate Halves<T>(R: Ring<T>, root: T, n: nat) {
    n > 1 ==> Pow(R, root, n / 2) == Neg(R, R.one)
  }

  lemma BlockCount(l: nat, i: nat)
    requires i < l
    ensures Pow2(l) == Pow2(l - i - 1) * (2 * Pow2(i))
    ensures Pow2(l) / (2 * Pow2(i)) == Pow2(l - i - 1)
  {
    Pow2Add(l - i - 1, i + 1);
    DivModUnique(Pow2(l), 2 * Pow2(i), Pow2(l - i - 1), 0);
  }

  /** The log n passes, from single positions up to the whole list. */
  method Passes<T(!new)>(R: Ring<T>, x: array<T>, root: T, l: nat, ghost bp: seq<T>)
    requires IsRing(R) && x.Length == |bp| == Pow2(l) && l > 0
    requires Pow(R, root, Pow2(l - 1)) == Neg(R, R.one)
    requires Level(R, x[..], bp, root, l, l)
    modifies x
    ensures Level(R, x[..], bp, root, l, 0)
  {
    var n, m := x.Length, 1;
    for i := 0 to l
      invariant m == Pow2(i)
      invariant Level(R, x[..], bp, root, l, l - i)
    {
      ghost var d := l - i - 1;
      BlockCount(l, i);
      var wm := Power(R, root, n / (2 * m));
      ghost var before := x[..];
      Pass(R, x, m, wm, Pow2(d));
      forall c: nat | c < Pow2(d) ensures BlockDone(R, x[..], bp, root, l, d, c) {
        assert BlockDone(R, before, bp, root, l, d + 1, 2 * c) && BlockDone(R, before, bp, root, l, d + 1, 2 * c + 1);
        BlockUp(R, before, x[..], bp, root, l, d, c);
      }
      m := m * 2;
    }
  }

  lemma TopLevel<T(!new)>(R: Ring<T>, a: seq<T>, x: seq<T>, root: T, l: nat)
    requires IsRing(R) && |a| == |x| == Pow2(l) && Level(R, a, x, root, l, 0)
    ensures forall k: nat | k < |x| :: a[k] == Dft(R, x, root, k)
  {
    assert BlockDone(R, a, x, root, l, 0, 0);
    PowSmall(R, root);
    forall k: nat | k < |x| ensures a[k] == Dft(R, x, root, k) {
      DftIsEval(R, x, root, k);
      assert a[0 * Pow2(l) + k] == Eval(R, x, Pow(R, root, k));
    }
  }

  method Transform<T(!new)>(R: Ring<T>, bp: seq<T>, root: T) returns (res: seq<T>)
    requires IsRing(R) && IsPow2(|bp|) && |bp| < 0x1_0000_0000 && Halves(R, root, |bp|)
    ensures |res| == |bp|
    ensures forall k: nat | k < |bp| :: res[k] == Dft(R, bp, root, k)
  {
    var n := |bp|;
    if n == 1 {
      DftIsEval(R, bp, root, 0);
      Units(R, bp[0]);
      Units(R, Pow(R, root, 0));
      assert bp[1..] == [];
      return [bp[0]];
    }
    var l := Log2(n);
    Pow2Of32();
    Log2Small(n, 32);
    var x := new T[n](i requires 0 <= i < n => bp[i]);
    assert x[..] == bp;
    Permute(x, l);
    BottomLevel(R, x[..], bp, root, l);
    Passes(R, x, root, l, bp);
    TopLevel(R, x[..], bp, root, l);
    res := x[..];
  }
}

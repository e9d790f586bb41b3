/** Five-limb digests as integers in base P, least significant limb first. */
module Tip5Digest {
  import opened Modular
  import opened Goldilocks

  const LIMBS: nat := 5
  /** The largest digest, as the node's default constants spell it. */
  const MAX_TIP5_ATOM: nat := 0xfffffffb0000000effffffe20000002cffffffcd0000002cffffffe20000000efffffffb00000000

  function Power(p: nat, n: nat): nat { if n == 0 then 1 else p * Power(p, n - 1) }

  /** The number the limbs write in base p. */
  function Value(limbs: seq<nat>, p: nat): nat {
    if limbs == [] then 0 else limbs[0] + p * Value(limbs[1..], p)
  }

  predicate Canonical(limbs: seq<nat>, p: nat) { forall i | 0 <= i < |limbs| :: limbs[i] < p }

  /* The two loops. */

  method BasePToDecimal(hash: seq<nat>) returns (result: nat)
    requires |hash| == LIMBS
    ensures result == Value(hash, PRIME)
  {
    result := SumOfPowers(hash, PRIME);
  }

  method SumOfPowers(hash: seq<nat>, p: nat) returns (result: nat)
    ensures result == Value(hash, p)
  {
    result := 0;
    for i := 0 to |hash|
      invariant result == Value(hash[..i], p)
    {
      assert hash[..i + 1] == hash[..i] + [hash[i]];
      ValueSnoc(hash[..i], hash[i], p);
      result := result + hash[i] * Power(p, i);
    }
    assert hash[..|hash|] == hash;
  }

  lemma {:induction false} ValueSnoc(limbs: seq<nat>, top: nat, p: nat)
    ensures Value(limbs + [top], p) == Value(limbs, p) + top * Power(p, |limbs|)
  {
    if limbs != [] {
      ValueSnoc(limbs[1..], top, p);
      assert (limbs + [top])[1..] == limbs[1..] + [top];
      Distribute(Value(limbs[1..], p), top, p, Power(p, |limbs| - 1));
    } else {
      assert limbs + [top] == [top];
    }
  }

  lemma Distribute(v: nat, t: nat, p: nat, w: nat)
    ensures p * (v + t * w) == p * v + t * (p * w)
  {
    assert p * (t * w) == t * (p * w);
  }

  method DecimalToBaseP(value: nat) returns (result: seq<nat>)
    ensures |result| == LIMBS && Canonical(result, PRIME)
    ensures Value(result, PRIME) == value % Power(PRIME, LIMBS)
  {
    result := LowLimbs(value, PRIME, LIMBS);
  }

  method LowLimbs(value: nat, p: nat, n: nat) returns (result: seq<nat>)
    requires p > 0
    ensures |result| == n && Canonical(result, p)
    ensures Power(p, n) > 0 && Value(result, p) == value % Power(p, n)
  {
    result := [];
    var v: nat := value;
    for i := 0 to n
      invariant |result| == i && Canonical(result, p)
      invariant Split(value, result, v, p)
    {
      NextLimb(value, result, v, p);
      result := result + [v % p];
      v := v / p;
    }
    CanonicalBound(result, p);
    DivModUnique(value, Power(p, n), v, Value(result, p));
  }

  /** The limbs so far and what is left above them. */
  ghost predicate Split(value: nat, limbs: seq<nat>, rest: nat, p: nat) {
    value == Value(limbs, p) + rest * Power(p, |limbs|)
  }

  lemma NextLimb(value: nat, limbs: seq<nat>, rest: nat, p: nat)
    requires p > 0 && Split(value, limbs, rest, p)
    ensures Split(value, limbs + [rest % p], rest / p, p)
  {
    ValueSnoc(limbs, rest % p, p);
    SplitLimb(rest, p, Power(p, |limbs|));
  }

  lemma SplitLimb(v: nat, p: nat, w: nat)
    requires p > 0
    ensures v * w == (v % p) * w + (v / p) * (p * w)
  {
    Distribute(v % p, 1, w, 1);
    assert v == v % p + (v / p) * p;
    assert ((v / p) * p) * w == (v / p) * (p * w);
  }

  /* The bijection. */

  lemma {:induction false} CanonicalBound(limbs: seq<nat>, p: nat)
    requires p > 0 && Canonical(limbs, p)
    ensures Value(limbs, p) < Power(p, |limbs|)
  {
    if limbs != [] {
      CanonicalBound(limbs[1..], p);
      CarryFits(limbs[0], Value(limbs[1..], p), p, Power(p, |limbs| - 1));
    }
  }

  lemma CarryFits(l: nat, v: nat, p: nat, w: nat)
    requires l < p && v < w
    ensures l + p * v < p * w
  {
    MulMono(v + 1, w, p);
  }

  /** Different canonical digests are different numbers. */
  lemma {:induction false} ValueInjective(a: seq<nat>, b: seq<nat>, p: nat)
    requires p > 0 && |a| == |b| && Canonical(a, p) && Canonical(b, p) && Value(a, p) == Value(b, p)
    ensures a == b
  {
    if a != [] {
      DivModUnique(Value(a, p), p, Value(a[1..], p), a[0]);
      DivModUnique(Value(b, p), p, Value(b[1..], p), b[0]);
      ValueInjective(a[1..], b[1..], p);
      assert a == [a[0]] + a[1..] && b == [b[0]] + b[1..];
    }
  }

  /** Digest to integer and back: the identity exactly on the digests whose limbs are all below P. */
  method DigestRoundTrip(hash: seq<nat>) returns (back: seq<nat>)
    requires |hash| == LIMBS
    ensures back == hash <==> Canonical(hash, PRIME)
  {
    var n := BasePToDecimal(hash);
    back := DecimalToBaseP(n);
    if Canonical(hash, PRIME) {
      CanonicalBound(hash, PRIME);
      DivModUnique(n, Power(PRIME, LIMBS), 0, n);
      ValueInjective(back, hash, PRIME);
    }
  }

  /** Integer to digest and back: the identity exactly up to the largest digest. */
  method IntegerRoundTrip(n: nat) returns (back: nat)
    ensures back == n <==> n <= MAX_TIP5_ATOM
  {
    var limbs := DecimalToBaseP(n);
    back := BasePToDecimal(limbs);
    PowerOfPrime();
  }

  lemma PowerOfPrime()
    ensures Power(PRIME, LIMBS) == MAX_TIP5_ATOM + 1
  {
    PowerFive(PRIME);
  }

  lemma PowerFive(p: nat)
    ensures Power(p, 5) == p * (p * (p * (p * p)))
  {
    assert Power(p, 1) == p && Power(p, 2) == p * p;
    assert Power(p, 3) == p * (p * p) && Power(p, 4) == p * (p * (p * p));
  }

  /** The largest digest is the one whose limbs are all P - 1. */
  lemma LargestDigest(limbs: seq<nat>)
    requires |limbs| == LIMBS && Canonical(limbs, PRIME)
    ensures Value(limbs, PRIME) <= MAX_TIP5_ATOM
    ensures Value(limbs, PRIME) == MAX_TIP5_ATOM <==> limbs == seq(LIMBS, _ => PRIME - 1)
  {
    var top := seq(LIMBS, (_: int) => PRIME - 1);
    PowerOfPrime();
    CanonicalBound(limbs, PRIME);
    TopValue(LIMBS, PRIME);
    if Value(limbs, PRIME) == MAX_TIP5_ATOM { ValueInjective(limbs, top, PRIME); }
  }

  lemma {:induction false} TopValue(n: nat, p: nat)
    requires p > 0
    ensures Value(seq(n, _ => p - 1), p) == Power(p, n) - 1
  {
    if n > 0 {
      TopValue(n - 1, p);
      assert seq(n, (_: int) => p - 1)[1..] == seq(n - 1, (_: int) => p - 1);
      assert p * (Power(p, n - 1) - 1) == p * Power(p, n - 1) - p;
    }
  }
}

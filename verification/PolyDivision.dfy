/** Long division and the extended Euclidean algorithm for polynomials over a field. */
module PolyDivision {
  import opened Rings
  import opened PowerSeries
  import opened Polynomials
  import opened SeriesIdentities
  import opened PolyLoops

  /* Long division. */

  lemma TopCancels<T(!new)>(F: Field<T>, x: T, y: T)
    requires IsField(F) && y != F.ring.zero
    ensures F.ring.sub(x, F.ring.mul(F.ring.mul(x, F.inv(y)), y)) == F.ring.zero
  {
    Mul3(F.ring, x, F.inv(y), y);
    Mul3(F.ring, F.inv(y), y, y);
    Units(F.ring, x);
  }

  method SubtractShifted<T>(R: Ring<T>, b: seq<T>, degB: nat, r: array<T>, i: nat, c: T)
    requires degB < |b| && degB <= i < r.Length
    modifies r
    ensures Eliminated(R, b[..degB + 1], old(r[..]), r[..], c, i - degB)
  {
    for k := 0 to degB + 1
      invariant forall n | 0 <= n < r.Length ::
        r[n] == if i - k < n <= i then R.sub(old(r[n]), R.mul(c, b[n - (i - degB)])) else old(r[n])
    {
      r[i - k] := R.sub(r[i - k], R.mul(c, b[degB - k]));
    }
  }

  /** d is the degree of the non-zero polynomial p. */
  ghost predicate HasDegree<T>(R: Ring<T>, p: seq<T>, d: nat) {
    d < |p| && p[d] != R.zero && forall n | d < n < |p| :: p[n] == R.zero
  }

  /** One round of the division loop: the coefficient at i of the remainder becomes zero. */
  method Eliminate<T(00,!new)>(F: Field<T>, ghost a: seq<T>, b: seq<T>, degB: nat, q: array<T>, qIndex: nat, r: array<T>, i: nat)
    requires IsField(F) && q != r && HasDegree(F.ring, b, degB) && degB <= i < r.Length
    requires qIndex == i - degB < q.Length && q[qIndex] == F.ring.zero
    requires Divided(F.ring, a, b, q[..], r[..])
    modifies q, r
    ensures Divided(F.ring, a, b, q[..], r[..])
    ensures r[i] == F.ring.zero
    ensures forall n | 0 <= n < r.Length && n > i :: r[n] == old(r[n])
    ensures forall n | 0 <= n < q.Length && n != qIndex :: q[n] == old(q[n])
  {
    var coeff := F.ring.mul(r[i], F.inv(b[degB]));
    ghost var q0, r0, bb := q[..], r[..], b[..degB + 1];
    TopCancels(F, r[i], b[degB]);
    q[qIndex] := coeff;
    SubtractShifted(F.ring, b, degB, r, i, coeff);
    assert q[..] == q0[qIndex := coeff];
    SerPad(F.ring, bb, b);
    EliminateKeeps(F.ring, a, b, bb, q0, q[..], r0, r[..], coeff, qIndex);
  }

  /** The division loop; the result is the last value of the degree counter. */
  method Reduce<T(==,00,!new)>(F: Field<T>, ghost a: seq<T>, b: seq<T>, aEnd: nat, degB: nat, q: array<T>, r: array<T>) returns (degR: nat)
    requires IsField(F) && q != r && HasDegree(F.ring, b, degB) && r.Length == aEnd + 1
    requires q.Length >= (if aEnd < degB then 0 else aEnd - degB) + 1
    requires forall n | 0 <= n < q.Length :: q[n] == F.ring.zero
    requires Divided(F.ring, a, b, q[..], r[..])
    modifies q, r
    ensures Divided(F.ring, a, b, q[..], r[..])
    ensures forall n | 0 <= n < r.Length && (degB <= n || degR < n) :: r[n] == F.ring.zero
    ensures degR <= aEnd && degR + 1 <= if aEnd < degB then aEnd + 1 else if degB == 0 then 1 else degB
    ensures aEnd < degB ==> forall n | 0 <= n < q.Length :: q[n] == F.ring.zero
  {
    var i := aEnd;
    degR := aEnd;
    var qIndex := if degR < degB then 0 else degR - degB;
    while degR >= degB
      invariant i == degR <= aEnd
      invariant degR >= degB ==> qIndex == degR - degB && forall n | 0 <= n <= qIndex :: q[n] == F.ring.zero
      invariant forall n | 0 <= n < r.Length && i < n :: r[n] == F.ring.zero
      invariant degR < degB ==> degR + 1 == degB || degR == aEnd
      invariant aEnd < degB ==> forall n | 0 <= n < q.Length :: q[n] == F.ring.zero
      invariant Divided(F.ring, a, b, q[..], r[..])
      decreases i
    {
      Eliminate(F, a, b, degB, q, qIndex, r, i);
      degR := if degR == 0 then 0 else degR - 1;
      qIndex := if qIndex == 0 then 0 else qIndex - 1;
      if degR == 0 && r[0] == F.ring.zero { break; }
      i := i - 1;
    }
  }

  method Divide<T(==,00,!new)>(F: Field<T>, a: seq<T>, b: seq<T>, q: array<T>, res: array<T>)
    requires IsField(F) && q != res
    requires !IsZero(F.ring, a) ==> !IsZero(F.ring, b)
    requires var da, db := Degree(F.ring, a), Degree(F.ring, b);
      !IsZero(F.ring, a) ==>
        && q.Length >= (if da < db then 0 else da - db) + 1
        && res.Length >= if da < db then da + 1 else if db == 0 then 1 else db
    modifies q, res
    ensures Divided(F.ring, a, b, q[..], res[..])
    ensures forall n | 0 <= n < res.Length && Degree(F.ring, b) <= n :: res[n] == F.ring.zero
    ensures Degree(F.ring, a) < Degree(F.ring, b) ==> forall n | 0 <= n < q.Length :: q[n] == F.ring.zero
  {
    Fill(F.ring, q);
    Fill(F.ring, res);
    if IsZero(F.ring, a) {
      StartDivision(F.ring, a, b, q[..], res[..]);
      return;
    }
    var aEnd, degB := Degree(F.ring, a), Degree(F.ring, b);
    var r := new T[aEnd + 1](n requires 0 <= n <= aEnd => a[n]);
    StartDivision(F.ring, a, b, q[..], r[..]);
    var degR := Reduce(F, a, b, aEnd, degB, q, r);
    CopyPrefix(r, degR + 1, res);
    SerPad(F.ring, res[..], r[..]);
  }

  method CopyPrefix<T>(r: array<T>, n: nat, res: array<T>)
    requires n <= r.Length && n <= res.Length && r != res
    modifies res
    ensures forall k | 0 <= k < n :: res[k] == r[k]
    ensures forall k | n <= k < res.Length :: res[k] == old(res[k])
  {
    for k := 0 to n
      invariant forall j | 0 <= j < k :: res[j] == r[j]
      invariant forall j | k <= j < res.Length :: res[j] == old(res[j])
    {
      res[k] := r[k];
    }
  }
}

/** The base field: integers modulo 2^64 - 2^32 + 1. */
module Goldilocks {
  import opened Modular
  import opened Rings

  const PRIME: int := 18446744069414584321

  type Belt = x: int | 0 <= x < PRIME

  function BeltAdd(a: Belt, b: Belt): Belt { (a + b) % PRIME }
  function BeltSub(a: Belt, b: Belt): Belt { (a - b) % PRIME }
  function BeltMul(a: Belt, b: Belt): Belt { (a * b) % PRIME }

  function BeltRing(): Ring<Belt> {
    Ring(0, 1, BeltAdd, BeltSub, BeltMul)
  }

  lemma AddLaws(x: Belt, y: Belt, z: Belt)
    ensures BeltAdd(BeltAdd(x, y), z) == BeltAdd(x, BeltAdd(y, z))
    ensures BeltAdd(x, 0) == x && BeltAdd(BeltSub(x, y), y) == x
  {
    AddMod(x, y, z, PRIME);
    ModAdd(x - y, y, PRIME);
    ModSmall(x, PRIME);
  }

  lemma MulLaws(x: Belt, y: Belt, z: Belt)
    ensures BeltMul(x, y) == BeltMul(y, x)
    ensures BeltMul(BeltMul(x, y), z) == BeltMul(x, BeltMul(y, z))
    ensures BeltMul(x, 1) == x
  {
    MulMod(x, y, z, PRIME);
    ModSmall(x, PRIME);
  }

  lemma DistributiveLaw(x: Belt, y: Belt, z: Belt)
    ensures BeltMul(x, BeltAdd(y, z)) == BeltAdd(BeltMul(x, y), BeltMul(x, z))
  {
    DistributeMod(x, y, z, PRIME);
  }

  lemma BeltIsRing()
    ensures IsRing(BeltRing())
  {
    forall x: Belt, y: Belt, z: Belt ensures Laws(BeltRing(), x, y, z) {
      AddLaws(x, y, z);
      MulLaws(x, y, z);
      DistributiveLaw(x, y, z);
    }
  }
}

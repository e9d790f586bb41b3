/** Which peers sent which blocks: one relation kept as two maps, each the converse of the other. */
module BlockTracker {

  datatype Tracker<B, P> = Tracker(blockIdToPeers: map<B, set<P>>, peerToBlockIds: map<P, set<B>>)

  predicate Has<K, V>(m: map<K, set<V>>, k: K, v: V) { k in m && v in m[k] }

  function Link<K, V>(m: map<K, set<V>>, k: K, v: V): map<K, set<V>> {
    m[k := (if k in m then m[k] else {}) + {v}]
  }

  /** v taken out of the sets of the given keys, and the keys left with nothing dropped. */
  function ErasedFrom<K, V>(m: map<K, set<V>>, v: V, keys: set<K>): map<K, set<V>> {
    map k | k in m && !(k in keys && m[k] - {v} == {}) :: if k in keys then m[k] - {v} else m[k]
  }

  function Erased<K, V>(m: map<K, set<V>>, v: V): map<K, set<V>> { ErasedFrom(m, v, m.Keys) }

  function TrackBlock<B, P>(t: Tracker<B, P>, b: B, p: P): Tracker<B, P> {
    Tracker(Link(t.blockIdToPeers, b, p), Link(t.peerToBlockIds, p, b))
  }

  function RemoveBlock<B, P>(t: Tracker<B, P>, b: B): Tracker<B, P> {
    Tracker(t.blockIdToPeers - {b}, Erased(t.peerToBlockIds, b))
  }

  function RemovePeer<B, P>(t: Tracker<B, P>, p: P): Tracker<B, P> {
    Tracker(Erased(t.blockIdToPeers, p), t.peerToBlockIds - {p})
  }

  function RemovePeers<B, P>(t: Tracker<B, P>, peers: seq<P>): Tracker<B, P>
    decreases |peers|
  {
    if peers == [] then t else RemovePeers(RemovePeer(t, peers[0]), peers[1..])
  }

  /** The block's peers forgotten, then the block itself. */
  function BadBlock<B, P>(t: Tracker<B, P>, b: B, peers: seq<P>): Tracker<B, P> {
    RemoveBlock(RemovePeers(t, peers), b)
  }

  /* The relation. */

  ghost predicate Sent<B, P>(t: Tracker<B, P>, b: B, p: P) { Has(t.blockIdToPeers, b, p) }

  ghost predicate NoEmptySets<K(!new), V>(m: map<K, set<V>>) { forall k | k in m :: m[k] != {} }

  ghost predicate Valid<B(!new), P(!new)>(t: Tracker<B, P>) {
    && (forall b: B, p: P :: Has(t.blockIdToPeers, b, p) <==> Has(t.peerToBlockIds, p, b))
    && NoEmptySets(t.blockIdToPeers) && NoEmptySets(t.peerToBlockIds)
  }

  lemma ErasedHas<K, V>(m: map<K, set<V>>, v: V, keys: set<K>, k: K, w: V)
    ensures Has(ErasedFrom(m, v, keys), k, w) <==> Has(m, k, w) && !(k in keys && v == w)
  {
    if Has(m, k, w) && v != w { assert w in m[k] - {v}; }
  }

  /** Two valid trackers of the same relation are the same tracker. */
  lemma RelationDetermines<B(!new), P(!new)>(t: Tracker<B, P>, u: Tracker<B, P>)
    requires Valid(t) && Valid(u) && forall b: B, p: P :: Sent(t, b, p) <==> Sent(u, b, p)
    ensures t == u
  {
    assert forall p: P, b: B :: Has(t.peerToBlockIds, p, b) <==> Sent(t, b, p);
    assert forall p: P, b: B :: Has(u.peerToBlockIds, p, b) <==> Sent(u, b, p);
    SameSets(t.blockIdToPeers, u.blockIdToPeers);
    SameSets(t.peerToBlockIds, u.peerToBlockIds);
  }

  lemma SameSets<K(!new), V(!new)>(m: map<K, set<V>>, n: map<K, set<V>>)
    requires NoEmptySets(m) && NoEmptySets(n) && forall k: K, v: V :: Has(m, k, v) <==> Has(n, k, v)
    ensures m == n
  {
    forall k: K ensures k in m <==> k in n {
      if k in m { Member(m, k, n); }
      if k in n { Member(n, k, m); }
    }
    forall k | k in m ensures m[k] == n[k] {
      forall v ensures v in m[k] <==> v in n[k] { assert Has(m, k, v) <==> Has(n, k, v); }
    }
  }

  lemma Member<K(!new), V(!new)>(m: map<K, set<V>>, k: K, n: map<K, set<V>>)
    requires NoEmptySets(m) && k in m && forall v: V :: Has(m, k, v) ==> Has(n, k, v)
    ensures k in n
  {
    var v :| v in m[k];
    assert Has(m, k, v);
  }

  lemma TrackBlockAdds<B(!new), P(!new)>(t: Tracker<B, P>, b: B, p: P)
    requires Valid(t)
    ensures Valid(TrackBlock(t, b, p))
    ensures forall c: B, q: P :: Sent(TrackBlock(t, b, p), c, q) <==> Sent(t, c, q) || (c == b && q == p)
  {
    var u := TrackBlock(t, b, p);
    forall c: B, q: P ensures Has(u.blockIdToPeers, c, q) <==> Has(u.peerToBlockIds, q, c) {
      assert Has(t.blockIdToPeers, c, q) <==> Has(t.peerToBlockIds, q, c);
    }
  }

  lemma RemoveBlockErases<B(!new), P(!new)>(t: Tracker<B, P>, b: B)
    requires Valid(t)
    ensures Valid(RemoveBlock(t, b))
    ensures forall c: B, q: P :: Sent(RemoveBlock(t, b), c, q) <==> Sent(t, c, q) && c != b
  {
    var u := RemoveBlock(t, b);
    forall c: B, q: P ensures Has(u.blockIdToPeers, c, q) <==> Has(u.peerToBlockIds, q, c) {
      ErasedHas(t.peerToBlockIds, b, t.peerToBlockIds.Keys, q, c);
    }
  }

  lemma RemovePeerErases<B(!new), P(!new)>(t: Tracker<B, P>, p: P)
    requires Valid(t)
    ensures Valid(RemovePeer(t, p))
    ensures forall c: B, q: P :: Sent(RemovePeer(t, p), c, q) <==> Sent(t, c, q) && q != p
  {
    var u := RemovePeer(t, p);
    forall c: B, q: P
      ensures Sent(u, c, q) <==> Sent(t, c, q) && q != p
      ensures Has(u.blockIdToPeers, c, q) <==> Has(u.peerToBlockIds, q, c)
    {
      ErasedHas(t.blockIdToPeers, p, t.blockIdToPeers.Keys, c, q);
    }
  }

  lemma {:induction false} RemovePeersErases<B(!new), P(!new)>(t: Tracker<B, P>, peers: seq<P>)
    requires Valid(t)
    ensures Valid(RemovePeers(t, peers))
    ensures forall c: B, q: P :: Sent(RemovePeers(t, peers), c, q) <==> Sent(t, c, q) && q !in peers
    decreases |peers|
  {
    if peers != [] {
      RemovePeerErases(t, peers[0]);
      RemovePeersErases(RemovePeer(t, peers[0]), peers[1..]);
    }
  }

  lemma SomeBlock<B(!new), P(!new)>(t: Tracker<B, P>, p: P) returns (b: B)
    requires Valid(t) && p in t.peerToBlockIds
    ensures Sent(t, b, p)
  {
    b :| b in t.peerToBlockIds[p];
    assert Has(t.peerToBlockIds, p, b);
  }

  /** A bad block takes itself and everything its peers sent, and nothing else. */
  lemma BadBlockErases<B(!new), P(!new)>(t: Tracker<B, P>, b: B, peers: seq<P>)
    requires Valid(t) && forall q: P :: q in peers <==> Sent(t, b, q)
    ensures Valid(BadBlock(t, b, peers))
    ensures forall c: B, q: P :: Sent(BadBlock(t, b, peers), c, q) <==> Sent(t, c, q) && c != b && !Sent(t, b, q)
    ensures b !in BadBlock(t, b, peers).blockIdToPeers
    ensures forall q | q in peers :: q !in BadBlock(t, b, peers).peerToBlockIds
  {
    var u := BadBlock(t, b, peers);
    RemovePeersErases(t, peers);
    RemoveBlockErases(RemovePeers(t, peers), b);
    forall q | q in peers ensures q !in u.peerToBlockIds {
      if q in u.peerToBlockIds { var c := SomeBlock(u, q); }
    }
  }
}

/** The peer-to-peer driver's tracking state: the connections and the blocks, over whole runs. */
module P2PState {
  import opened Options
  import opened BT = BlockTracker
  import opened CN = Connections

  datatype State<B, C, P, A, I> = State(net: Net<C, P, A, I>, blocks: Tracker<B, P>)

  /** BadBlock carries the order in which its peers are visited. */
  datatype Op<B, C, P, A, I> =
    | Track(connection: C, peer: P, addr: Address<A, I>, listener: bool)
    | Lost(connection: C)
    | TrackBlockId(block: B, peer: P)
    | RemoveBlockId(block: B)
    | ForgetPeer(peer: P)
    | BadBlockId(block: B, peers: seq<P>)

  /** Connection ids are not reused while they are live. */
  ghost predicate Enabled<B(!new), C, P(!new), A, I>(s: State<B, C, P, A, I>, op: Op<B, C, P, A, I>) {
    match op
    case Track(c, _, _, _) => c !in s.net.connections
    case BadBlockId(b, peers) => forall q: P :: q in peers <==> Sent(s.blocks, b, q)
    case _ => true
  }

  ghost function Apply<B, C, P, A, I>(s: State<B, C, P, A, I>, op: Op<B, C, P, A, I>): State<B, C, P, A, I> {
    match op
    case Track(c, p, addr, listener) => s.(net := Connect(s.net, c, p, addr, listener))
    case Lost(c) =>
      State(Disconnect(s.net, c), if LosesPeer(s.net, c) then RemovePeer(s.blocks, s.net.connections[c]) else s.blocks)
    case TrackBlockId(b, p) => s.(blocks := TrackBlock(s.blocks, b, p))
    case RemoveBlockId(b) => s.(blocks := RemoveBlock(s.blocks, b))
    case ForgetPeer(p) => s.(blocks := RemovePeer(s.blocks, p))
    case BadBlockId(b, peers) => s.(blocks := BadBlock(s.blocks, b, peers))
  }

  ghost predicate Consistent<B(!new), C(!new), P(!new), A, I(!new)>(s: State<B, C, P, A, I>) {
    CN.Valid(s.net) && BT.Valid(s.blocks)
  }

  function Start<B, C, P, A, I>(): State<B, C, P, A, I> { State(Empty(), Tracker(map[], map[])) }

  ghost predicate Possible<B(!new), C, P(!new), A, I>(s: State<B, C, P, A, I>, ops: seq<Op<B, C, P, A, I>>)
    decreases |ops|
  {
    ops == [] || (Enabled(s, ops[0]) && Possible(Apply(s, ops[0]), ops[1..]))
  }

  ghost function Run<B, C, P, A, I>(s: State<B, C, P, A, I>, ops: seq<Op<B, C, P, A, I>>): State<B, C, P, A, I>
    decreases |ops|
  {
    if ops == [] then s else Run(Apply(s, ops[0]), ops[1..])
  }

  lemma LostKeepsBlocks<B(!new), C(!new), P(!new), A, I(!new)>(s: State<B, C, P, A, I>, c: C)
    requires Consistent(s)
    ensures BT.Valid(Apply(s, Lost(c)).blocks)
  {
    if LosesPeer(s.net, c) { RemovePeerErases(s.blocks, s.net.connections[c]); }
  }

  lemma StepKeepsConsistent<B(!new), C(!new), P(!new), A, I(!new)>(s: State<B, C, P, A, I>, op: Op<B, C, P, A, I>)
    requires Consistent(s) && Enabled(s, op)
    ensures Consistent(Apply(s, op))
  {
    match op
    case Track(c, p, addr, listener) => ConnectKeepsValid(s.net, c, p, addr, listener);
    case Lost(c) =>
      DisconnectKeepsValid(s.net, c);
      LostKeepsBlocks(s, c);
    case TrackBlockId(b, p) => TrackBlockAdds(s.blocks, b, p);
    case RemoveBlockId(b) => RemoveBlockErases(s.blocks, b);
    case ForgetPeer(p) => RemovePeerErases(s.blocks, p);
    case BadBlockId(b, peers) => BadBlockErases(s.blocks, b, peers);
  }

  /** Every sequence of operations with fresh connection ids keeps all six maps consistent. */
  lemma {:induction false} AlwaysConsistent<B(!new), C(!new), P(!new), A, I(!new)>(s: State<B, C, P, A, I>, ops: seq<Op<B, C, P, A, I>>)
    requires Consistent(s) && Possible(s, ops)
    ensures Consistent(Run(s, ops))
    decreases |ops|
  {
    if ops != [] {
      StepKeepsConsistent(s, ops[0]);
      AlwaysConsistent(Apply(s, ops[0]), ops[1..]);
    }
  }

  lemma ReachableConsistent<B(!new), C(!new), P(!new), A, I(!new)>(ops: seq<Op<B, C, P, A, I>>)
    requires Possible(Start(), ops)
    ensures Consistent(Run(Start(), ops))
  {
    AlwaysConsistent(Start(), ops);
  }

  /* The connections of a run, from its operations alone. */

  datatype Tracked<P, A, I> = Tracked(peer: P, addr: Address<A, I>, listener: bool)

  /** The connections tracked and not lost, each as it was tracked. */
  ghost function Remaining<B, C, P, A, I>(live: map<C, Tracked<P, A, I>>, ops: seq<Op<B, C, P, A, I>>): map<C, Tracked<P, A, I>>
    decreases |ops|
  {
    if ops == [] then live
    else
      var next := match ops[0]
        case Track(c, p, addr, listener) => live[c := Tracked(p, addr, listener)]
        case Lost(c) => live - {c}
        case _ => live;
      Remaining(next, ops[1..])
  }

  /** The maps show exactly these connections: peers, addresses, and as inbound those tracked as listeners. */
  ghost predicate Shows<C(!new), P(!new), A, I>(s: Net<C, P, A, I>, live: map<C, Tracked<P, A, I>>) {
    && (forall c: C :: c in s.connections <==> c in live)
    && (forall c: C :: c in s.inbound <==> c in live && live[c].listener)
    && (forall c: C | c in live :: s.connections[c] == live[c].peer && ConnectionAddress(s, c) == Some(live[c].addr))
    && (forall c: C | c in s.inbound :: s.inbound[c] == live[c].peer)
  }

  lemma TrackShows<C(!new), P(!new), A, I(!new)>(s: Net<C, P, A, I>, live: map<C, Tracked<P, A, I>>, c: C, p: P, addr: Address<A, I>, listener: bool)
    requires CN.Valid(s) && Shows(s, live) && c !in s.connections
    ensures Shows(Connect(s, c, p, addr, listener), live[c := Tracked(p, addr, listener)])
  {
    var t := Connect(s, c, p, addr, listener);
    forall d: C
      ensures Adds(s, t, c, p, listener, d)
      ensures ConnectionAddress(t, d) == if d == c then Some(addr) else ConnectionAddress(s, d)
    {
      ConnectAdds(s, c, p, addr, listener, d);
    }
    AddedShows(s, t, live, c, p, addr, listener);
  }

  lemma AddedShows<C(!new), P(!new), A, I(!new)>(s: Net<C, P, A, I>, t: Net<C, P, A, I>, live: map<C, Tracked<P, A, I>>, c: C, p: P, addr: Address<A, I>, listener: bool)
    requires Shows(s, live) && c !in s.connections && forall d: C :: Adds(s, t, c, p, listener, d)
    requires forall d: C :: ConnectionAddress(t, d) == if d == c then Some(addr) else ConnectionAddress(s, d)
    ensures Shows(t, live[c := Tracked(p, addr, listener)])
  {
    var next := live[c := Tracked(p, addr, listener)];
    forall d: C
      ensures d in t.connections <==> d in next
      ensures d in t.inbound <==> d in next && next[d].listener
      ensures d in next ==> t.connections[d] == next[d].peer
      ensures d in t.inbound ==> t.inbound[d] == next[d].peer
    {
      assert Adds(s, t, c, p, listener, d);
    }
  }

  lemma LostShows<C(!new), P(!new), A, I(!new)>(s: Net<C, P, A, I>, live: map<C, Tracked<P, A, I>>, c: C)
    requires CN.Valid(s) && Shows(s, live)
    ensures Shows(Disconnect(s, c), live - {c})
  {
    forall d: C { DisconnectRemoves(s, c, d); }
  }

  /** After every run the maps show the connections that its operations leave. */
  lemma {:induction false} RunShows<B(!new), C(!new), P(!new), A, I(!new)>(s: State<B, C, P, A, I>, ops: seq<Op<B, C, P, A, I>>, live: map<C, Tracked<P, A, I>>)
    requires Consistent(s) && Possible(s, ops) && Shows(s.net, live)
    ensures Shows(Run(s, ops).net, Remaining(live, ops))
    decreases |ops|
  {
    if ops != [] {
      StepKeepsConsistent(s, ops[0]);
      match ops[0] {
        case Track(c, p, addr, listener) =>
          TrackShows(s.net, live, c, p, addr, listener);
          RunShows(Apply(s, ops[0]), ops[1..], live[c := Tracked(p, addr, listener)]);
        case Lost(c) =>
          LostShows(s.net, live, c);
          RunShows(Apply(s, ops[0]), ops[1..], live - {c});
        case _ => RunShows(Apply(s, ops[0]), ops[1..], live);
      }
    }
  }

  lemma ReachableShows<B(!new), C(!new), P(!new), A, I(!new)>(ops: seq<Op<B, C, P, A, I>>)
    requires Possible(Start(), ops)
    ensures Shows(Run(Start(), ops).net, Remaining(map[], ops))
  {
    RunShows(Start(), ops, map[]);
  }

  /** When a peer's last connection goes, everything it sent is forgotten, and nothing of the others. */
  lemma LostPeerIsForgotten<B(!new), C(!new), P(!new), A, I(!new)>(s: State<B, C, P, A, I>, c: C, b: B, q: P)
    requires Consistent(s) && c in s.net.connections
    ensures var t := Apply(s, Lost(c));
      Sent(t.blocks, b, q) <==> Sent(s.blocks, b, q) && !(q == s.net.connections[c] && q !in t.net.peers)
  {
    var p := s.net.connections[c];
    assert IsConnectionOf(s.net, c, p) && IsListedUnder(s.net, c, p);
    if LosesPeer(s.net, c) { RemovePeerErases(s.blocks, p); }
  }

  /* The object. */

  class Peers<B(==,!new), C(==,!new), P(==,!new), A(==), I(==,!new)> {
    var connections: map<C, P>
    var inboundConnections: map<C, P>
    var peerConnections: map<P, map<C, Address<A, I>>>
    var ipInfo: map<I, set<C>>
    var blockIdToPeers: map<B, set<P>>
    var peerToBlockIds: map<P, set<B>>

    ghost function Links(): Net<C, P, A, I>
      reads this`connections, this`inboundConnections, this`peerConnections, this`ipInfo
    {
      Net(connections, inboundConnections, peerConnections, ipInfo)
    }

    ghost function Blocks(): Tracker<B, P>
      reads this`blockIdToPeers, this`peerToBlockIds
    {
      Tracker(blockIdToPeers, peerToBlockIds)
    }

    ghost function Abs(): State<B, C, P, A, I>
      reads this
    {
      State(Links(), Blocks())
    }

    constructor ()
      ensures Abs() == Start()
    {
      connections, inboundConnections, peerConnections, ipInfo := map[], map[], map[], map[];
      blockIdToPeers, peerToBlockIds := map[], map[];
    }

    method TrackConnection(c: C, p: P, addr: Address<A, I>, listener: bool)
      modifies this
      ensures Abs() == Apply(old(Abs()), Track(c, p, addr, listener))
    {
      connections := connections[c := p];
      if listener { inboundConnections := inboundConnections[c := p]; }
      if p in peerConnections {
        peerConnections := peerConnections[p := peerConnections[p][c := addr]];
      } else {
        peerConnections := peerConnections[p := map[c := addr]];
      }
      if addr.ip.Some? {
        var ip := addr.ip.value;
        if ip in ipInfo {
          ipInfo := ipInfo[ip := ipInfo[ip] + {c}];
        } else {
          ipInfo := ipInfo[ip := {}];
        }
      }
    }

    /** Returns how many peers are left. */
    method LostConnection(c: C) returns (peerCount: nat)
      requires BT.Valid(Blocks())
      modifies this
      ensures Abs() == Apply(old(Abs()), Lost(c)) && peerCount == |peerConnections|
    {
      if c in connections {
        var p := connections[c];
        connections, inboundConnections := connections - {c}, inboundConnections - {c};
        if p in peerConnections {
          var addr := if c in peerConnections[p] then Some(peerConnections[p][c]) else None;
          var left := peerConnections[p] - {c};
          if left == map[] {
            peerConnections := peerConnections - {p};
            RemovePeerFromBlocks(p);
          } else {
            peerConnections := peerConnections[p := left];
          }
          if addr.Some? { LeaveIp(addr.value.ip, c); }
        }
      }
      peerCount := |peerConnections|;
    }

    method LeaveIp(ip: Option<I>, c: C)
      modifies this`ipInfo
      ensures ipInfo == WithoutIp(old(ipInfo), ip, c)
    {
      if ip.Some? && ip.value in ipInfo {
        ipInfo := ipInfo[ip.value := ipInfo[ip.value] - {c}];
        if ipInfo[ip.value] == {} { ipInfo := ipInfo - {ip.value}; }
      }
    }

    method TrackBlockIdAndPeer(b: B, p: P)
      modifies this`blockIdToPeers, this`peerToBlockIds
      ensures Blocks() == TrackBlock(old(Blocks()), b, p)
    {
      blockIdToPeers := blockIdToPeers[b := (if b in blockIdToPeers then blockIdToPeers[b] else {}) + {p}];
      peerToBlockIds := peerToBlockIds[p := (if p in peerToBlockIds then peerToBlockIds[p] else {}) + {b}];
    }

    method RemoveBlock(b: B)
      requires BT.Valid(Blocks())
      modifies this`blockIdToPeers, this`peerToBlockIds
      ensures Blocks() == BT.RemoveBlock(old(Blocks()), b)
    {
      var peers := if b in blockIdToPeers then blockIdToPeers[b] else {};
      OnlyListed(blockIdToPeers, peerToBlockIds, b, peers);
      blockIdToPeers := blockIdToPeers - {b};
      peerToBlockIds := EraseEach(peerToBlockIds, b, peers);
    }

    method RemovePeerFromBlocks(p: P)
      requires BT.Valid(Blocks())
      modifies this`blockIdToPeers, this`peerToBlockIds
      ensures Blocks() == RemovePeer(old(Blocks()), p)
    {
      var blocks := if p in peerToBlockIds then peerToBlockIds[p] else {};
      OnlyListed(peerToBlockIds, blockIdToPeers, p, blocks);
      peerToBlockIds := peerToBlockIds - {p};
      blockIdToPeers := EraseEach(blockIdToPeers, p, blocks);
    }

    /** Forgets the block and every peer that sent it; an id that is no digest is an error and changes nothing. */
    method ProcessBadBlock(id: Option<B>) returns (peers: Option<seq<P>>)
      requires BT.Valid(Blocks())
      modifies this`blockIdToPeers, this`peerToBlockIds
      ensures BT.Valid(Blocks())
      ensures id.None? ==> peers.None? && Blocks() == old(Blocks())
      ensures id.Some? ==> peers.Some? && forall q: P :: q in peers.value <==> Sent(old(Blocks()), id.value, q)
      ensures id.Some? ==> forall i, j | 0 <= i < j < |peers.value| :: peers.value[i] != peers.value[j]
      ensures id.Some? ==> Blocks() == BadBlock(old(Blocks()), id.value, peers.value)
    {
      if id.None? { return None; }
      var b := id.value;
      ghost var t := Blocks();
      var banned := Enumerate(if b in blockIdToPeers then blockIdToPeers[b] else {});
      for i := 0 to |banned|
        invariant Blocks() == RemovePeers(t, banned[..i])
        invariant BT.Valid(Blocks())
      {
        RemovePeerErases(Blocks(), banned[i]);
        RemovePeersSnoc(t, banned[..i], banned[i]);
        assert banned[..i + 1] == banned[..i] + [banned[i]];
        RemovePeerFromBlocks(banned[i]);
      }
      assert banned[..|banned|] == banned;
      RemoveBlockErases(Blocks(), b);
      RemoveBlock(b);
      peers := Some(banned);
    }
  }

  /** Takes v out of the sets of the listed keys one by one, dropping the sets that become empty. */
  method EraseEach<K(==), V(==)>(m: map<K, set<V>>, v: V, keys: set<K>) returns (r: map<K, set<V>>)
    ensures r == ErasedFrom(m, v, keys)
  {
    r := m;
    var todo := keys;
    while todo != {}
      invariant todo <= keys && r == ErasedFrom(m, v, keys - todo)
    {
      var k :| k in todo;
      EraseOne(m, v, keys - todo, k);
      assert keys - (todo - {k}) == keys - todo + {k};
      todo := todo - {k};
      if k in r {
        r := r[k := r[k] - {v}];
        if r[k] == {} { r := r - {k}; }
      }
    }
    assert keys - todo == keys;
  }

  method Enumerate<T(==)>(s: set<T>) returns (l: seq<T>)
    ensures forall x :: x in l <==> x in s
    ensures forall i, j | 0 <= i < j < |l| :: l[i] != l[j]
  {
    l := [];
    var todo := s;
    while todo != {}
      invariant forall x :: x in l <==> x in s && x !in todo
      invariant todo <= s && forall i, j | 0 <= i < j < |l| :: l[i] != l[j]
    {
      var x :| x in todo;
      todo := todo - {x};
      l := l + [x];
    }
  }

  /** Taking v out of one more key's set. */
  lemma EraseOne<K, V>(m: map<K, set<V>>, v: V, keys: set<K>, k: K)
    requires k !in keys
    ensures var e := ErasedFrom(m, v, keys);
      ErasedFrom(m, v, keys + {k}) ==
        if k !in e then e else if e[k] - {v} == {} then e - {k} else e[k := e[k] - {v}]
  {
  }

  /** Erasing b from the keys listed for it erases it everywhere. */
  lemma OnlyListed<K(!new), V(!new)>(m: map<K, set<V>>, w: map<V, set<K>>, b: K, listed: set<V>)
    requires forall k: K, v: V :: Has(m, k, v) <==> Has(w, v, k)
    requires NoEmptySets(w) && listed == if b in m then m[b] else {}
    ensures ErasedFrom(w, b, listed) == Erased(w, b)
    ensures b !in m ==> m - {b} == m
  {
    forall v | v in w && v !in listed ensures w[v] - {b} == w[v] {
      assert !Has(m, b, v) && !Has(w, v, b);
    }
  }

  lemma {:induction false} RemovePeersSnoc<B, P>(t: Tracker<B, P>, peers: seq<P>, p: P)
    ensures RemovePeers(t, peers + [p]) == RemovePeer(RemovePeers(t, peers), p)
    decreases |peers|
  {
    if peers != [] {
      RemovePeersSnoc(RemovePeer(t, peers[0]), peers[1..], p);
      assert (peers + [p])[1..] == peers[1..] + [p];
    } else {
      assert peers + [p] == [p];
    }
  }
}

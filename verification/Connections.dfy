/** Live connections, by connection, by peer and by IP address. */
module Connections {
  import opened Options

  /** A multiaddress and the IP address it names, if any. */
  datatype Address<A, I> = Address(text: A, ip: Option<I>)

  datatype Net<C, P, A, I> = Net(connections: map<C, P>, inbound: map<C, P>, peers: map<P, map<C, Address<A, I>>>,
                                 ipInfo: map<I, set<C>>)

  function Empty<C, P, A, I>(): Net<C, P, A, I> { Net(map[], map[], map[], map[]) }

  /** The first connection from an IP opens an entry without entering itself. */
  function Connect<C, P, A, I>(s: Net<C, P, A, I>, c: C, p: P, addr: Address<A, I>, listener: bool): Net<C, P, A, I> {
    Net(s.connections[c := p],
        if listener then s.inbound[c := p] else s.inbound,
        s.peers[p := if p in s.peers then s.peers[p][c := addr] else map[c := addr]],
        match addr.ip
        case None => s.ipInfo
        case Some(ip) => s.ipInfo[ip := if ip in s.ipInfo then s.ipInfo[ip] + {c} else {}])
  }

  function WithoutIp<C, I>(ipInfo: map<I, set<C>>, ip: Option<I>, c: C): map<I, set<C>> {
    if ip.None? || ip.value !in ipInfo then ipInfo
    else if ipInfo[ip.value] - {c} == {} then ipInfo - {ip.value}
    else ipInfo[ip.value := ipInfo[ip.value] - {c}]
  }

  function Disconnect<C, P, A, I>(s: Net<C, P, A, I>, c: C): Net<C, P, A, I> {
    if c !in s.connections then s
    else
      var p, t := s.connections[c], s.(connections := s.connections - {c}, inbound := s.inbound - {c});
      if p !in s.peers then t
      else
        var left := s.peers[p] - {c};
        t.(peers := if left == map[] then s.peers - {p} else s.peers[p := left],
           ipInfo := if c in s.peers[p] then WithoutIp(s.ipInfo, s.peers[p][c].ip, c) else s.ipInfo)
  }

  /** Whether losing the connection loses its peer. */
  predicate LosesPeer<C, P, A, I>(s: Net<C, P, A, I>, c: C) {
    c in s.connections && s.connections[c] in s.peers && s.peers[s.connections[c]] - {c} == map[]
  }

  function ConnectionAddress<C, P, A, I>(s: Net<C, P, A, I>, c: C): Option<Address<A, I>> {
    if c in s.connections && s.connections[c] in s.peers && c in s.peers[s.connections[c]]
    then Some(s.peers[s.connections[c]][c]) else None
  }

  /* The invariant. */

  /** c is a live connection from ip. */
  predicate LiveAt<C, P, A, I>(s: Net<C, P, A, I>, c: C, ip: I) {
    var a := ConnectionAddress(s, c);
    a.Some? && a.value.ip == Some(ip)
  }

  predicate IsConnectionOf<C, P, A, I>(s: Net<C, P, A, I>, c: C, p: P) { c in s.connections && s.connections[c] == p }

  predicate IsListedUnder<C, P, A, I>(s: Net<C, P, A, I>, c: C, p: P) { p in s.peers && c in s.peers[p] }

  ghost predicate Agree<C(!new), P(!new), A, I>(s: Net<C, P, A, I>) {
    forall c: C, p: P :: IsConnectionOf(s, c, p) <==> IsListedUnder(s, c, p)
  }

  ghost predicate InboundLive<C(!new), P(!new), A, I>(s: Net<C, P, A, I>) {
    forall c | c in s.inbound :: IsConnectionOf(s, c, s.inbound[c])
  }

  /** An IP's set holds only live connections from that IP, and it exists only while there is one. */
  ghost predicate IpEntryLive<C(!new), P, A, I>(s: Net<C, P, A, I>, ip: I)
    requires ip in s.ipInfo
  {
    (forall c | c in s.ipInfo[ip] :: LiveAt(s, c, ip)) && exists c :: LiveAt(s, c, ip)
  }

  ghost predicate Valid<C(!new), P(!new), A, I(!new)>(s: Net<C, P, A, I>) {
    && Agree(s) && (forall p | p in s.peers :: s.peers[p] != map[])
    && InboundLive(s)
    && (forall ip | ip in s.ipInfo :: IpEntryLive(s, ip))
  }

  /** Every live connection has an address. */
  lemma HasAddress<C(!new), P(!new), A, I(!new)>(s: Net<C, P, A, I>, c: C)
    requires Valid(s)
    ensures c in s.connections <==> ConnectionAddress(s, c).Some?
  {
    if c in s.connections { assert IsConnectionOf(s, c, s.connections[c]); }
  }

  /** When tracking an id again under another address may leave a stale entry behind. */
  ghost predicate Moves<C(!new), P, A, I>(s: Net<C, P, A, I>, c: C, addr: Address<A, I>, ip: I) {
    && ip in s.ipInfo && LiveAt(s, c, ip) && addr.ip != Some(ip)
    && (c in s.ipInfo[ip] || forall d | LiveAt(s, d, ip) :: d == c)
  }

  lemma ConnectAgrees<C(!new), P(!new), A, I(!new)>(s: Net<C, P, A, I>, c: C, p: P, addr: Address<A, I>, listener: bool)
    requires Valid(s) && (c in s.connections ==> s.connections[c] == p)
    ensures var t := Connect(s, c, p, addr, listener); Agree(t) && InboundLive(t)
  {
    var t := Connect(s, c, p, addr, listener);
    forall d: C, q: P ensures IsConnectionOf(t, d, q) <==> IsListedUnder(t, d, q) {
      assert IsConnectionOf(s, d, q) <==> IsListedUnder(s, d, q);
      assert IsConnectionOf(s, c, q) <==> IsListedUnder(s, c, q);
    }
    forall d | d in t.inbound ensures IsConnectionOf(t, d, t.inbound[d]) {
      if d != c { assert IsConnectionOf(s, d, s.inbound[d]); }
    }
  }

  lemma ConnectLive<C(!new), P(!new), A, I(!new)>(s: Net<C, P, A, I>, c: C, p: P, addr: Address<A, I>, listener: bool, d: C, ip: I)
    requires Valid(s) && (c in s.connections ==> s.connections[c] == p)
    ensures LiveAt(Connect(s, c, p, addr, listener), d, ip) <==> if d == c then addr.ip == Some(ip) else LiveAt(s, d, ip)
  {
  }

  lemma ConnectEntries<C(!new), P(!new), A, I(!new)>(s: Net<C, P, A, I>, c: C, p: P, addr: Address<A, I>, listener: bool, ip: I)
    requires Valid(s) && (c in s.connections ==> s.connections[c] == p)
    requires ip in Connect(s, c, p, addr, listener).ipInfo
    ensures IpEntryLive(Connect(s, c, p, addr, listener), ip) <==> !Moves(s, c, addr, ip)
  {
    var t := Connect(s, c, p, addr, listener);
    forall d: C ensures LiveAt(t, d, ip) <==> if d == c then addr.ip == Some(ip) else LiveAt(s, d, ip) {
      ConnectLive(s, c, p, addr, listener, d, ip);
    }
    if addr.ip == Some(ip) { assert LiveAt(t, c, ip); }
  }

  lemma StolenId<C(!new), P(!new), A, I(!new)>(s: Net<C, P, A, I>, c: C, p: P, addr: Address<A, I>, listener: bool)
    requires Valid(s) && c in s.connections && s.connections[c] != p
    ensures !Agree(Connect(s, c, p, addr, listener))
  {
    var t, q := Connect(s, c, p, addr, listener), s.connections[c];
    assert IsConnectionOf(s, c, q);
    assert IsListedUnder(t, c, q) && !IsConnectionOf(t, c, q);
  }

  /**
   * Tracking a connection keeps the maps consistent exactly when its id is fresh, or is tracked
   * again for the same peer and leaves no stale entry for the IP it came from.
   */
  lemma ConnectKeepsValid<C(!new), P(!new), A, I(!new)>(s: Net<C, P, A, I>, c: C, p: P, addr: Address<A, I>, listener: bool)
    requires Valid(s)
    ensures Valid(Connect(s, c, p, addr, listener)) <==>
      c !in s.connections || (s.connections[c] == p && forall ip :: !Moves(s, c, addr, ip))
  {
    var t := Connect(s, c, p, addr, listener);
    if c in s.connections && s.connections[c] != p {
      StolenId(s, c, p, addr, listener);
    } else {
      ConnectAgrees(s, c, p, addr, listener);
      assert c !in s.connections ==> forall ip :: !Moves(s, c, addr, ip);
      assert forall ip :: Moves(s, c, addr, ip) ==> ip in t.ipInfo;
      assert forall q | q in t.peers :: t.peers[q] != map[] by { assert c in t.peers[p]; }
      forall ip | ip in t.ipInfo ensures IpEntryLive(t, ip) <==> !Moves(s, c, addr, ip) {
        ConnectEntries(s, c, p, addr, listener, ip);
      }
    }
  }

  /* Losing connections. */

  lemma DisconnectAgrees<C(!new), P(!new), A, I(!new)>(s: Net<C, P, A, I>, c: C)
    requires Valid(s) && c in s.connections
    ensures var t := Disconnect(s, c); Agree(t) && InboundLive(t)
  {
    var t := Disconnect(s, c);
    assert IsConnectionOf(s, c, s.connections[c]);
    forall d: C, q: P ensures IsConnectionOf(t, d, q) <==> IsListedUnder(t, d, q) {
      assert IsConnectionOf(s, d, q) <==> IsListedUnder(s, d, q);
      if IsListedUnder(s, d, q) && d != c && q == s.connections[c] { assert d in s.peers[q] - {c}; }
    }
    forall d | d in t.inbound ensures IsConnectionOf(t, d, t.inbound[d]) {
      assert IsConnectionOf(s, d, s.inbound[d]);
    }
  }

  lemma DisconnectLive<C(!new), P(!new), A, I(!new)>(s: Net<C, P, A, I>, c: C, d: C, ip: I)
    requires Valid(s) && c in s.connections
    ensures LiveAt(Disconnect(s, c), d, ip) <==> LiveAt(s, d, ip) && d != c
  {
    assert IsConnectionOf(s, c, s.connections[c]);
    if LiveAt(s, d, ip) && d != c && s.connections[d] == s.connections[c] {
      assert d in s.peers[s.connections[c]] - {c};
    }
  }

  lemma DisconnectEntries<C(!new), P(!new), A, I(!new)>(s: Net<C, P, A, I>, c: C, ip: I)
    requires Valid(s) && c in s.connections && ip in Disconnect(s, c).ipInfo
    ensures IpEntryLive(Disconnect(s, c), ip)
  {
    var t := Disconnect(s, c);
    assert IsConnectionOf(s, c, s.connections[c]);
    assert IpEntryLive(s, ip);
    forall d: C ensures LiveAt(t, d, ip) <==> LiveAt(s, d, ip) && d != c { DisconnectLive(s, c, d, ip); }
    if LiveAt(s, c, ip) {
      var d :| d in t.ipInfo[ip];
      assert LiveAt(t, d, ip);
    } else {
      var d :| LiveAt(s, d, ip);
      assert LiveAt(t, d, ip);
    }
  }

  lemma DisconnectKeepsValid<C(!new), P(!new), A, I(!new)>(s: Net<C, P, A, I>, c: C)
    requires Valid(s)
    ensures Valid(Disconnect(s, c))
    ensures Disconnect(s, c).connections == s.connections - {c}
  {
    if c in s.connections {
      DisconnectAgrees(s, c);
      forall ip | ip in Disconnect(s, c).ipInfo ensures IpEntryLive(Disconnect(s, c), ip) { DisconnectEntries(s, c, ip); }
    }
  }

  function DisconnectAll<C, P, A, I>(s: Net<C, P, A, I>, cs: seq<C>): Net<C, P, A, I>
    decreases |cs|
  {
    if cs == [] then s else DisconnectAll(Disconnect(s, cs[0]), cs[1..])
  }

  /** Losing every connection, in whatever order, empties every map. */
  lemma {:induction false} AllLost<C(!new), P(!new), A, I(!new)>(s: Net<C, P, A, I>, cs: seq<C>)
    requires Valid(s) && forall c | c in s.connections :: c in cs
    ensures DisconnectAll(s, cs) == Empty()
    decreases |cs|
  {
    if cs == [] {
      NothingLive(s);
    } else {
      DisconnectKeepsValid(s, cs[0]);
      AllLost(Disconnect(s, cs[0]), cs[1..]);
    }
  }

  lemma NothingLive<C(!new), P(!new), A, I(!new)>(s: Net<C, P, A, I>)
    requires Valid(s) && forall c :: c !in s.connections
    ensures s == Empty()
  {
    assert s.connections == map[];
    forall c ensures c !in s.inbound { if c in s.inbound { InboundIsLive(s, c); } }
    forall p ensures p !in s.peers { if p in s.peers { var c := SomeConnection(s, p); } }
    forall ip ensures ip !in s.ipInfo { if ip in s.ipInfo { var c := SomeLive(s, ip); } }
    assert s.inbound == map[] && s.peers == map[] && s.ipInfo == map[];
  }

  lemma InboundIsLive<C(!new), P(!new), A, I(!new)>(s: Net<C, P, A, I>, c: C)
    requires Valid(s) && c in s.inbound
    ensures c in s.connections
  {
    assert IsConnectionOf(s, c, s.inbound[c]);
  }

  lemma SomeLive<C(!new), P(!new), A, I(!new)>(s: Net<C, P, A, I>, ip: I) returns (c: C)
    requires Valid(s) && ip in s.ipInfo
    ensures c in s.connections
  {
    assert IpEntryLive(s, ip);
    c :| LiveAt(s, c, ip);
  }

  lemma SomeConnection<C(!new), P(!new), A, I(!new)>(s: Net<C, P, A, I>, p: P) returns (c: C)
    requires Valid(s) && p in s.peers
    ensures c in s.connections && s.connections[c] == p
  {
    assert s.peers[p].Keys != {};
    c :| c in s.peers[p];
    assert IsListedUnder(s, c, p) && IsConnectionOf(s, c, p);
  }

  /* What each operation changes, entry by entry. */

  /** c is in the set of ip. */
  predicate Entered<C, P, A, I>(s: Net<C, P, A, I>, c: C, ip: I) { ip in s.ipInfo && c in s.ipInfo[ip] }

  /** From s to t, d's entries are as before, except that c is now a connection of p, inbound if listener. */
  predicate Adds<C, P, A, I>(s: Net<C, P, A, I>, t: Net<C, P, A, I>, c: C, p: P, listener: bool, d: C) {
    && (d in t.connections <==> d in s.connections || d == c)
    && (d in t.connections ==> t.connections[d] == if d == c then p else s.connections[d])
    && (d in t.inbound <==> d in s.inbound || (d == c && listener))
    && (d in t.inbound ==> t.inbound[d] == if d == c then p else s.inbound[d])
  }

  /** A listener's connection becomes inbound, and the other connections are as before. */
  lemma ConnectAdds<C(!new), P(!new), A, I(!new)>(s: Net<C, P, A, I>, c: C, p: P, addr: Address<A, I>, listener: bool, d: C)
    requires Valid(s) && c !in s.connections
    ensures var t := Connect(s, c, p, addr, listener);
      && Adds(s, t, c, p, listener, d)
      && ConnectionAddress(t, d) == if d == c then Some(addr) else ConnectionAddress(s, d)
  {
    if c in s.inbound { InboundIsLive(s, c); }
    HasAddress(s, d);
  }

  /** A connection is entered for its IP if that has an entry; if not, it gets an empty one. */
  lemma ConnectEnters<C(!new), P(!new), A, I(!new)>(s: Net<C, P, A, I>, c: C, p: P, addr: Address<A, I>, listener: bool, d: C, ip: I)
    requires Valid(s) && c !in s.connections
    ensures var t := Connect(s, c, p, addr, listener);
      && (Entered(t, d, ip) <==> Entered(s, d, ip) || (d == c && addr.ip == Some(ip) && ip in s.ipInfo))
      && (ip in t.ipInfo <==> ip in s.ipInfo || addr.ip == Some(ip))
  {
  }

  /** The lost connection is gone, and the other connections are as before. */
  lemma DisconnectRemoves<C(!new), P(!new), A, I(!new)>(s: Net<C, P, A, I>, c: C, d: C)
    requires Valid(s)
    ensures var t := Disconnect(s, c);
      && t.connections == s.connections - {c} && t.inbound == s.inbound - {c}
      && ConnectionAddress(t, d) == if d == c then None else ConnectionAddress(s, d)
  {
    if c in s.inbound { InboundIsLive(s, c); }
    HasAddress(s, c);
    HasAddress(s, d);
    if c in s.connections && d in s.connections && d != c && s.connections[d] == s.connections[c] {
      assert d in s.peers[s.connections[c]] - {c};
    }
  }

  /** It leaves the sets it was in; an IP's entry goes exactly when that leaves its set empty. */
  lemma DisconnectLeaves<C(!new), P(!new), A, I(!new)>(s: Net<C, P, A, I>, c: C, d: C, ip: I)
    requires Valid(s)
    ensures var t := Disconnect(s, c);
      && (Entered(t, d, ip) <==> Entered(s, d, ip) && d != c)
      && (ip in t.ipInfo <==> ip in s.ipInfo && !(LiveAt(s, c, ip) && s.ipInfo[ip] <= {c}))
  {
    if ip in s.ipInfo {
      assert IpEntryLive(s, ip);
      DisconnectDrops(s, c, ip);
    }
    HasAddress(s, c);
  }

  /* The converse of the IP invariant. */

  /** Every live connection's IP has an entry. */
  ghost predicate Covered<C(!new), P, A, I(!new)>(s: Net<C, P, A, I>) {
    forall c: C, ip: I | LiveAt(s, c, ip) :: ip in s.ipInfo
  }

  lemma ConnectKeepsCover<C(!new), P(!new), A, I(!new)>(s: Net<C, P, A, I>, c: C, p: P, addr: Address<A, I>, listener: bool)
    requires Valid(s) && Covered(s) && c !in s.connections
    ensures Covered(Connect(s, c, p, addr, listener))
  {
    var t := Connect(s, c, p, addr, listener);
    forall d: C, ip: I | LiveAt(t, d, ip) ensures ip in t.ipInfo { ConnectLive(s, c, p, addr, listener, d, ip); }
  }

  /** The entry of c's IP holds no connection but c, yet another connection from that IP is live. */
  ghost predicate LastEntered<C(!new), P, A, I>(s: Net<C, P, A, I>, c: C) {
    exists d: C, ip: I :: d != c && LiveAt(s, d, ip) && LiveAt(s, c, ip) && ip in s.ipInfo && s.ipInfo[ip] <= {c}
  }

  lemma DisconnectDrops<C(!new), P(!new), A, I(!new)>(s: Net<C, P, A, I>, c: C, ip: I)
    requires Valid(s) && ip in s.ipInfo
    ensures ip !in Disconnect(s, c).ipInfo <==> LiveAt(s, c, ip) && s.ipInfo[ip] <= {c}
  {
    assert s.ipInfo[ip] <= {c} <==> s.ipInfo[ip] - {c} == {};
    if c in s.connections { HasAddress(s, c); }
  }

  /**
   * Losing a connection keeps every live connection's IP covered exactly when it is not the last one
   * entered for an IP that others are still connected from.
   */
  lemma DisconnectKeepsCover<C(!new), P(!new), A, I(!new)>(s: Net<C, P, A, I>, c: C)
    requires Valid(s) && Covered(s)
    ensures Covered(Disconnect(s, c)) <==> !LastEntered(s, c)
  {
    var t := Disconnect(s, c);
    if c in s.connections {
      forall d: C, ip: I ensures LiveAt(t, d, ip) <==> LiveAt(s, d, ip) && d != c { DisconnectLive(s, c, d, ip); }
      forall ip | ip in s.ipInfo ensures ip !in t.ipInfo <==> LiveAt(s, c, ip) && s.ipInfo[ip] <= {c} {
        DisconnectDrops(s, c, ip);
      }
      if LastEntered(s, c) {
        var d, ip :| d != c && LiveAt(s, d, ip) && LiveAt(s, c, ip) && ip in s.ipInfo && s.ipInfo[ip] <= {c};
        assert LiveAt(t, d, ip) && ip !in t.ipInfo;
      }
    }
  }

  /** The converse fails: a live connection's IP can be without an entry. */
  lemma LiveWithoutEntry<C(!new), P(!new), A, I(!new)>(c: C, d: C, p: P, addr: Address<A, I>)
    requires c != d && addr.ip.Some?
    ensures var s := Disconnect(Connect(Connect(Empty(), c, p, addr, false), d, p, addr, false), d);
      LiveAt(s, c, addr.ip.value) && addr.ip.value !in s.ipInfo
  {
    var t := Connect(Connect(Empty(), c, p, addr, false), d, p, addr, false);
    assert t.ipInfo[addr.ip.value] == {d};
    assert c in t.peers[p] - {d};
  }
}

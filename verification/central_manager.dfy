/** The central-role connection manager `BleVoteManager`
    (src/central/ble_vote_manager.py).

    Each radio event is one pure step from a manager state to a new state
    plus the radio/stack calls the handler issues, in order. The manager
    keeps a map from connection handle to `Peer`, the list of connected
    addresses and a `connecting` flag. In this file a peer's `rxHandle` is
    the notify characteristic (peripheral → central) and `txHandle` the
    write characteristic (central → peripheral). */
module CentralManager {
  import opened Common
  import opened Ble

  /** Constructor arguments: `max_peers`, `bytes(VOTE_SVC_UUID)` (an
      abstract byte string here) and whether an `on_rx` callback was given. */
  datatype Config = Config(maxPeers: int, svcUuidBytes: bytes, hasOnRx: bool)

  datatype Manager = Manager(
    cfg: Config,
    peers: map<int, Peer>,
    peerAddrs: seq<bytes>,
    connecting: bool)

  /** The `_irq` events with their data tuples. */
  datatype Event =
    | ScanResult(addrType: int, addr: bytes, advType: int, rssi: int, advData: bytes)
    | ScanDone
    | PeripheralConnect(conn: int, addrType: int, addr: bytes)
    | PeripheralDisconnect(conn: int, addrType: int, addr: bytes)
    | ServiceResult(conn: int, startHandle: int, endHandle: int, uuid: Uuid)
    | ServiceDone(conn: int, status: int)
    | CharacteristicResult(conn: int, defHandle: int, valueHandle: int, properties: int, uuid: Uuid)
    | CharacteristicDone(conn: int, status: int)
    | Notify(conn: int, valueHandle: int, data: Payload)
    | OtherEvent(code: int)

  datatype Step = Step(m: Manager, calls: seq<Call>)

  /** The constructor: nothing tracked, then a brief fast scan. */
  function Init(cfg: Config): (r: Step)
    ensures r.m.cfg == cfg && r.m.peers == map[] && r.m.peerAddrs == [] && !r.m.connecting
    ensures r.calls == [GapScan(FastBriefly)]
    ensures cfg.maxPeers >= 0 ==> Inv(r.m)
  {
    Step(Manager(cfg, map[], [], false), [GapScan(FastBriefly)])
  }

  // ---------------------------------------------------------------------
  //  Event handlers
  // ---------------------------------------------------------------------

  /** The three filters of `_handle_scan_result`. */
  predicate Accepts(m: Manager, addr: bytes, advData: bytes)
  {
    |m.peers| < m.cfg.maxPeers && Contains(advData, m.cfg.svcUuidBytes) && addr !in m.peerAddrs
  }

  /** A scan result stops scanning and connects only when a peer slot is
      free, the service UUID bytes occur contiguously in the advertising
      data and the address is not already connected; otherwise nothing
      happens. */
  function OnScanResult(m: Manager, addrType: int, addr: bytes, advData: bytes): (r: Step)
    ensures r.calls != [] <==>
              |m.peers| < m.cfg.maxPeers && IsInfix(m.cfg.svcUuidBytes, advData) && addr !in m.peerAddrs
    ensures r.calls != [] ==>
              r.calls == [GapScan(StopScan), GapConnect(addrType, addr)] && r.m == m.(connecting := true)
    ensures r.calls == [] ==> r.m == m
  {
    if Accepts(m, addr, advData) then
      Step(m.(connecting := true), [GapScan(StopScan), GapConnect(addrType, addr)])
    else
      Step(m, [])
  }

  /** When a scan window ends, scan slowly forever unless a connection is
      being set up. */
  function OnScanDone(m: Manager): (r: Step)
    ensures r.m == m
    ensures r.calls == (if m.connecting then [] else [GapScan(SlowForever)])
  {
    if !m.connecting then Step(m, [GapScan(SlowForever)]) else Step(m, [])
  }

  /** A new link: a fresh peer keyed by its handle (no `max_peers` check
      here), its address appended, service discovery started. */
  function OnPeripheralConnect(m: Manager, conn: int, addr: bytes): (r: Step)
    ensures conn in r.m.peers && r.m.peers[conn] == NewPeer(addr, conn)
    ensures forall c :: c in m.peers && c != conn ==> c in r.m.peers && r.m.peers[c] == m.peers[c]
    ensures r.m.peers.Keys == m.peers.Keys + {conn}
    ensures r.m.peerAddrs == m.peerAddrs + [addr]
    ensures r.m.connecting == m.connecting && r.m.cfg == m.cfg
    ensures r.calls == [DiscoverServices(conn)]
  {
    Step(m.(peers := m.peers[conn := NewPeer(addr, conn)], peerAddrs := m.peerAddrs + [addr]),
         [DiscoverServices(conn)])
  }

  /** A discovered service: the vote service's handle range is recorded on
      the peer (the source indexes `_peers[conn_handle]` directly, so the
      peer must exist); other services are ignored. */
  function OnServiceResult(m: Manager, conn: int, startHandle: int, endHandle: int, uuid: Uuid): (r: Step)
    requires uuid == VoteService ==> conn in m.peers
    ensures r.calls == [] && r.m.peers.Keys == m.peers.Keys
    ensures uuid == VoteService ==> r.m.peers[conn] == m.peers[conn].(svcRange := Some((startHandle, endHandle)))
    ensures uuid != VoteService ==> r.m == m
    ensures forall c :: c in m.peers && c != conn ==> r.m.peers[c] == m.peers[c]
    ensures r.m.peerAddrs == m.peerAddrs && r.m.connecting == m.connecting && r.m.cfg == m.cfg
  {
    if uuid == VoteService then
      Step(m.(peers := m.peers[conn := m.peers[conn].(svcRange := Some((startHandle, endHandle)))]), [])
    else
      Step(m, [])
  }

  /** Service discovery finished: characteristic discovery over the
      recorded range, only for a known peer, status 0 and a recorded range. */
  function OnServiceDone(m: Manager, conn: int, status: int): (r: Step)
    ensures r.m == m
    ensures r.calls != [] <==> conn in m.peers && status == 0 && m.peers[conn].svcRange.Some?
    ensures r.calls != [] ==>
              r.calls == [DiscoverCharacteristics(conn, m.peers[conn].svcRange.value.0, m.peers[conn].svcRange.value.1)]
  {
    if conn !in m.peers || status != 0 || m.peers[conn].svcRange.None? then
      Step(m, [])
    else
      var (s, e) := m.peers[conn].svcRange.value;
      Step(m, [DiscoverCharacteristics(conn, s, e)])
  }

  /** A discovered characteristic: the notify UUID resolves `rxHandle`, the
      write UUID resolves `txHandle`; unknown connections and other UUIDs
      change nothing. */
  function OnCharacteristicResult(m: Manager, conn: int, valueHandle: int, uuid: Uuid): (r: Step)
    ensures r.calls == [] && r.m.peers.Keys == m.peers.Keys
    ensures r.m.peerAddrs == m.peerAddrs && r.m.connecting == m.connecting && r.m.cfg == m.cfg
    ensures conn !in m.peers || (uuid != VoteNotifyChar && uuid != VoteWriteChar) ==> r.m == m
    ensures conn in m.peers && uuid == VoteNotifyChar ==>
              r.m.peers[conn] == m.peers[conn].(rxHandle := Some(valueHandle))
    ensures conn in m.peers && uuid == VoteWriteChar ==>
              r.m.peers[conn] == m.peers[conn].(txHandle := Some(valueHandle))
    ensures forall c :: c in m.peers && c != conn ==> r.m.peers[c] == m.peers[c]
  {
    if conn !in m.peers then Step(m, [])
    else if uuid == VoteNotifyChar then
      Step(m.(peers := m.peers[conn := m.peers[conn].(rxHandle := Some(valueHandle))]), [])
    else if uuid == VoteWriteChar then
      Step(m.(peers := m.peers[conn := m.peers[conn].(txHandle := Some(valueHandle))]), [])
    else
      Step(m, [])
  }

  /** Characteristic discovery finished with the notify handle resolved:
      enable notifications by writing `01 00` to the CCCD at notify handle
      + 1, clear `connecting`, and scan fast again while a slot is free. */
  function OnCharacteristicDone(m: Manager, conn: int, status: int): (r: Step)
    ensures r.m.peers == m.peers && r.m.peerAddrs == m.peerAddrs && r.m.cfg == m.cfg
    ensures r.calls != [] <==> conn in m.peers && status == 0 && m.peers[conn].rxHandle.Some?
    ensures r.calls == [] ==> r.m == m
    ensures r.calls != [] ==> !r.m.connecting
    ensures r.calls != [] ==>
              r.calls[0] == GattcWrite(conn, m.peers[conn].rxHandle.value + 1, Raw(ENABLE_NOTIFY), 1)
              && (|r.calls| == 2 <==> |m.peers| < m.cfg.maxPeers)
              && (|r.calls| == 2 ==> r.calls[1] == GapScan(FastBriefly))
              && |r.calls| <= 2
  {
    if conn !in m.peers || status != 0 || m.peers[conn].rxHandle.None? then
      Step(m, [])
    else
      var cccd := m.peers[conn].rxHandle.value + 1;
      var rescan := if |m.peers| < m.cfg.maxPeers then [GapScan(FastBriefly)] else [];
      Step(m.(connecting := false), [GattcWrite(conn, cccd, Raw(ENABLE_NOTIFY), 1)] + rescan)
  }

  /** A notification is handed verbatim to `on_rx` when one is registered. */
  function OnNotify(m: Manager, conn: int, data: Payload): (r: Step)
    ensures r.m == m
    ensures r.calls == (if m.cfg.hasOnRx then [OnRx(conn, data)] else [])
  {
    Step(m, if m.cfg.hasOnRx then [OnRx(conn, data)] else [])
  }

  /** A lost link: the peer and one occurrence of its address are dropped
      (a missing address is tolerated), `connecting` is cleared and a fast
      scan always restarts. No other peer changes. */
  function OnPeripheralDisconnect(m: Manager, conn: int): (r: Step)
    ensures r.m.peers.Keys == m.peers.Keys - {conn}
    ensures forall c :: c in r.m.peers ==> r.m.peers[c] == m.peers[c]
    ensures conn in m.peers ==> r.m.peerAddrs == RemoveFirst(m.peerAddrs, m.peers[conn].addr)
    ensures conn !in m.peers ==> r.m.peerAddrs == m.peerAddrs
    ensures !r.m.connecting && r.m.cfg == m.cfg
    ensures r.calls == [GapScan(FastBriefly)]
  {
    if conn in m.peers then
      var p := m.peers[conn];
      Step(Manager(m.cfg, m.peers - {conn}, RemoveFirst(m.peerAddrs, p.addr), false), [GapScan(FastBriefly)])
    else
      Step(m.(connecting := false), [GapScan(FastBriefly)])
  }

  /** What `_irq` demands of an event: the service-result handler indexes
      the peer map without a guard. */
  predicate CanHandle(m: Manager, e: Event)
  {
    e.ServiceResult? && e.uuid == VoteService ==> e.conn in m.peers
  }

  /** `_irq`: dispatch on the event code; unknown codes do nothing. */
  function Irq(m: Manager, e: Event): (r: Step)
    requires CanHandle(m, e)
    ensures r.m.cfg == m.cfg
    ensures !e.PeripheralConnect? ==> |r.m.peers| <= |m.peers|
    ensures e.OtherEvent? ==> r == Step(m, [])
  {
    match e
    case ScanResult(addrType, addr, _, _, advData) => OnScanResult(m, addrType, addr, advData)
    case ScanDone => OnScanDone(m)
    case PeripheralConnect(conn, _, addr) => OnPeripheralConnect(m, conn, addr)
    case PeripheralDisconnect(conn, _, _) =>
      var r := OnPeripheralDisconnect(m, conn);
      assert r.m.peers.Keys <= m.peers.Keys;
      CardKeys(r.m.peers, m.peers);
      r
    case ServiceResult(conn, s, en, uuid) =>
      var r := OnServiceResult(m, conn, s, en, uuid);
      CardKeys(r.m.peers, m.peers);
      r
    case ServiceDone(conn, status) => OnServiceDone(m, conn, status)
    case CharacteristicResult(conn, _, vh, _, uuid) =>
      var r := OnCharacteristicResult(m, conn, vh, uuid);
      CardKeys(r.m.peers, m.peers);
      r
    case CharacteristicDone(conn, status) => OnCharacteristicDone(m, conn, status)
    case Notify(conn, _, data) => OnNotify(m, conn, data)
    case OtherEvent(_) => Step(m, [])
  }

  lemma CardKeys<K, V, W>(a: map<K, V>, b: map<K, W>)
    requires a.Keys <= b.Keys
    ensures |a| <= |b|
  {
    assert |a.Keys| <= |b.Keys| by {
      SubsetCard(a.Keys, b.Keys);
    }
  }

  lemma SubsetCard<K>(a: set<K>, b: set<K>)
    requires a <= b
    ensures |a| <= |b|
  {
    assert b == a + (b - a);
  }

  // ---------------------------------------------------------------------
  //  Sending
  // ---------------------------------------------------------------------

  /** The write characteristic handle of a tracked peer, if resolved. */
  function WriteHandle(m: Manager, conn: int): (h: Option<int>)
    ensures h.Some? <==> conn in m.peers && m.peers[conn].txHandle.Some?
  {
    if conn in m.peers then m.peers[conn].txHandle else None
  }

  /** `send`: one write-with-response to the peer's write handle, or nothing
      for an unknown peer or an unresolved write handle. */
  function Send(m: Manager, conn: int, msg: Payload): (r: seq<Call>)
    ensures r != [] <==> conn in m.peers && m.peers[conn].txHandle.Some?
    ensures r != [] ==> r == [GattcWrite(conn, m.peers[conn].txHandle.value, msg, 1)]
  {
    if conn in m.peers && m.peers[conn].txHandle.Some? then
      [GattcWrite(conn, m.peers[conn].txHandle.value, msg, 1)]
    else
      []
  }

  /** `broadcast`: `send` for each key of a snapshot of the peer map, taken
      in the order `order` (the dict's iteration order). */
  function Broadcast(m: Manager, order: seq<int>, msg: Payload): seq<Call>
    requires forall i, j :: 0 <= i < j < |order| ==> order[i] != order[j]
  {
    WriteEach(order, c => WriteHandle(m, c), msg)
  }

  /** Peers whose write characteristic has been resolved. */
  ghost function Writable(m: Manager): set<int>
  {
    set c | c in m.peers && m.peers[c].txHandle.Some?
  }

  /** With the snapshot listing every tracked peer exactly once, a broadcast
      issues exactly one write per write-resolved peer, to that peer's own
      write handle, and none to anything else. */
  lemma {:induction false} BroadcastOncePerPeer(m: Manager, order: seq<int>, msg: Payload)
    requires forall i, j :: 0 <= i < j < |order| ==> order[i] != order[j]
    requires forall c :: c in order <==> c in m.peers
    ensures |Broadcast(m, order, msg)| == |Writable(m)|
    ensures forall i :: 0 <= i < |Broadcast(m, order, msg)| ==>
              var w := Broadcast(m, order, msg)[i];
              w.conn in Writable(m) && w == GattcWrite(w.conn, m.peers[w.conn].txHandle.value, msg, 1)
    ensures forall c :: c in Writable(m) <==>
              exists i :: 0 <= i < |Broadcast(m, order, msg)| && Broadcast(m, order, msg)[i].conn == c
  {
    var f := c => WriteHandle(m, c);
    WriteEachOncePerTarget(order, f, msg);
    assert Targets(order, f) == Writable(m) by {
      forall c ensures c in Targets(order, f) <==> c in Writable(m) {
        assert f(c) == WriteHandle(m, c);
      }
    }
  }

  // ---------------------------------------------------------------------
  //  Peer-set invariant
  // ---------------------------------------------------------------------

  /** Addresses of the tracked peers. */
  ghost function PeerAddrSet(peers: map<int, Peer>): set<bytes>
  {
    set c | c in peers :: peers[c].addr
  }

  /** No value occurs twice in `s`. */
  ghost predicate NoDup<T(!new)>(s: seq<T>)
  {
    forall x :: multiset(s)[x] <= 1
  }

  /** Each peer is keyed by its own handle, and no two peers share an
      address. */
  ghost predicate PeersOk(peers: map<int, Peer>)
  {
    && (forall c :: c in peers ==> peers[c].connHandle == c)
    && (forall c1, c2 :: c1 in peers && c2 in peers && c1 != c2 ==> peers[c1].addr != peers[c2].addr)
  }

  /** The address list holds exactly the peers' addresses, once each. */
  ghost predicate ListMirrors(addrs: seq<bytes>, peers: map<int, Peer>)
  {
    && NoDup(addrs)
    && |addrs| == |peers|
    && (forall a :: a in addrs <==> a in PeerAddrSet(peers))
  }

  /** The book-keeping invariant: at most `max_peers` peers, each keyed by
      its own handle, with pairwise-distinct addresses, and the address
      list holding exactly those addresses, once each. */
  ghost predicate Inv(m: Manager)
  {
    |m.peers| <= m.cfg.maxPeers && PeersOk(m.peers) && ListMirrors(m.peerAddrs, m.peers)
  }

  /** The environment assumption under which `max_peers` is respected:
      `_handle_peripheral_connect` does not check the limit itself, so a
      connect must answer an accepted scan result while its slot is still
      free, with a handle and an address that are not already tracked. */
  ghost predicate Admissible(m: Manager, e: Event)
  {
    && CanHandle(m, e)
    && (e.PeripheralConnect? ==>
          |m.peers| < m.cfg.maxPeers && e.conn !in m.peers && e.addr !in m.peerAddrs)
  }

  /** Every admissible event preserves the invariant. */
  lemma {:induction false} IrqPreservesInv(m: Manager, e: Event)
    requires Inv(m) && Admissible(m, e)
    ensures Inv(Irq(m, e).m)
  {
    if e.PeripheralConnect? || e.PeripheralDisconnect? || e.ServiceResult? || e.CharacteristicResult? {
      BookEventPreservesInv(m, e);
    } else {
      OtherEventPreservesInv(m, e);
    }
  }

  /** The events that add, remove or update a peer keep the invariant. */
  lemma {:induction false} BookEventPreservesInv(m: Manager, e: Event)
    requires Inv(m) && Admissible(m, e)
    requires e.PeripheralConnect? || e.PeripheralDisconnect? || e.ServiceResult? || e.CharacteristicResult?
    ensures Inv(Irq(m, e).m)
  {
    match e {
      case PeripheralConnect(conn, _, addr) =>
        ConnectPreservesInv(m, conn, addr);
      case PeripheralDisconnect(conn, _, _) =>
        if conn in m.peers {
          DisconnectPreservesInv(m, conn);
        } else {
          assert m.peers - {conn} == m.peers;
        }
      case ServiceResult(conn, s, en, uuid) =>
        HandlesPreserveInv(m, OnServiceResult(m, conn, s, en, uuid).m, conn);
      case CharacteristicResult(conn, _, vh, _, uuid) =>
        HandlesPreserveInv(m, OnCharacteristicResult(m, conn, vh, uuid).m, conn);
    }
  }

  /** The remaining events leave the books alone and keep the invariant. */
  lemma {:induction false} OtherEventPreservesInv(m: Manager, e: Event)
    requires Inv(m) && Admissible(m, e)
    requires !(e.PeripheralConnect? || e.PeripheralDisconnect? || e.ServiceResult? || e.CharacteristicResult?)
    ensures Inv(Irq(m, e).m)
  {
    match e {
      case ScanResult(addrType, addr, _, _, advData) =>
        SameBooks(m, OnScanResult(m, addrType, addr, advData).m);
      case ScanDone =>
      case ServiceDone(conn, status) =>
      case CharacteristicDone(conn, status) =>
        SameBooks(m, OnCharacteristicDone(m, conn, status).m);
      case Notify(conn, _, data) =>
      case OtherEvent(_) =>
    }
  }

  /** A handler that leaves the peer map and the address list alone keeps
      the invariant. */
  lemma SameBooks(m: Manager, r: Manager)
    requires Inv(m) && r.cfg == m.cfg && r.peers == m.peers && r.peerAddrs == m.peerAddrs
    ensures Inv(r)
  {
  }

  lemma ConnectPreservesInv(m: Manager, conn: int, addr: bytes)
    requires Inv(m) && |m.peers| < m.cfg.maxPeers && conn !in m.peers && addr !in m.peerAddrs
    ensures Inv(OnPeripheralConnect(m, conn, addr).m)
  {
    var r := OnPeripheralConnect(m, conn, addr).m;
    assert r.peers == m.peers[conn := NewPeer(addr, conn)];
    PeersAdd(m.peers, conn, addr);
    ListAdd(m.peerAddrs, m.peers, addr, r.peers);
  }

  /** A new peer under a fresh handle with a fresh address. */
  lemma PeersAdd(peers: map<int, Peer>, conn: int, addr: bytes)
    requires PeersOk(peers) && conn !in peers && addr !in PeerAddrSet(peers)
    ensures var ps := peers[conn := NewPeer(addr, conn)];
            PeersOk(ps) && PeerAddrSet(ps) == PeerAddrSet(peers) + {addr} && |ps| == |peers| + 1
  {
    var ps := peers[conn := NewPeer(addr, conn)];
    assert ps.Keys == peers.Keys + {conn};
    PeersAddOk(peers, conn, addr, ps);
    PeersAddAddrs(peers, conn, addr, ps);
  }

  lemma PeersAddOk(peers: map<int, Peer>, conn: int, addr: bytes, ps: map<int, Peer>)
    requires PeersOk(peers) && conn !in peers && addr !in PeerAddrSet(peers)
    requires ps == peers[conn := NewPeer(addr, conn)]
    ensures PeersOk(ps)
  {
    forall c | c in peers ensures peers[c].addr != addr {
      assert peers[c].addr in PeerAddrSet(peers);
    }
  }

  lemma PeersAddAddrs(peers: map<int, Peer>, conn: int, addr: bytes, ps: map<int, Peer>)
    requires conn !in peers && ps == peers[conn := NewPeer(addr, conn)]
    ensures PeerAddrSet(ps) == PeerAddrSet(peers) + {addr}
  {
    assert conn in ps && ps[conn].addr == addr;
    forall a | a in PeerAddrSet(ps) ensures a in PeerAddrSet(peers) + {addr} {
      var c :| c in ps && ps[c].addr == a;
    }
    forall a | a in PeerAddrSet(peers) ensures a in PeerAddrSet(ps) {
      var c :| c in peers && peers[c].addr == a;
      assert c != conn && ps[c].addr == a;
    }
  }

  /** Appending the new peer's address keeps the list a mirror. */
  lemma ListAdd(addrs: seq<bytes>, peers: map<int, Peer>, addr: bytes, ps: map<int, Peer>)
    requires ListMirrors(addrs, peers) && addr !in addrs
    requires PeerAddrSet(ps) == PeerAddrSet(peers) + {addr} && |ps| == |peers| + 1
    ensures ListMirrors(addrs + [addr], ps)
  {
    assert multiset(addrs + [addr]) == multiset(addrs) + multiset{addr};
  }

  /** Resolving one peer's handles or service range keeps every key,
      address and connection handle, so the invariant survives. */
  lemma HandlesPreserveInv(m: Manager, r: Manager, conn: int)
    requires Inv(m)
    requires r.cfg == m.cfg && r.peerAddrs == m.peerAddrs && r.peers.Keys == m.peers.Keys
    requires forall c :: c in m.peers && c != conn ==> r.peers[c] == m.peers[c]
    requires conn in m.peers ==> r.peers[conn].addr == m.peers[conn].addr
                                 && r.peers[conn].connHandle == m.peers[conn].connHandle
    ensures Inv(r)
  {
    assert |r.peers| == |r.peers.Keys| == |m.peers.Keys| == |m.peers|;
    SameAddrs(m.peers, r.peers);
  }

  /** Updating a peer's handles keeps every peer's address. */
  lemma SameAddrs(a: map<int, Peer>, b: map<int, Peer>)
    requires a.Keys == b.Keys
    requires forall c :: c in a ==> b[c].addr == a[c].addr
    ensures PeerAddrSet(a) == PeerAddrSet(b)
  {
    forall x | x in PeerAddrSet(a) ensures x in PeerAddrSet(b) {
      var c :| c in a && a[c].addr == x;
      assert b[c].addr == x;
    }
    forall x | x in PeerAddrSet(b) ensures x in PeerAddrSet(a) {
      var c :| c in b && b[c].addr == x;
      assert a[c].addr == x;
    }
  }

  lemma DisconnectPreservesInv(m: Manager, conn: int)
    requires Inv(m) && conn in m.peers
    ensures Inv(OnPeripheralDisconnect(m, conn).m)
  {
    var r := OnPeripheralDisconnect(m, conn).m;
    var a := m.peers[conn].addr;
    assert r.peers == m.peers - {conn};
    PeersDrop(m.peers, conn);
    ListDrop(m.peerAddrs, m.peers, a, r.peers);
  }

  /** Dropping a peer drops exactly its address. */
  lemma PeersDrop(peers: map<int, Peer>, conn: int)
    requires PeersOk(peers) && conn in peers
    ensures var ps := peers - {conn};
            PeersOk(ps) && PeerAddrSet(ps) == PeerAddrSet(peers) - {peers[conn].addr} && |ps| == |peers| - 1
  {
    var ps := peers - {conn};
    var a := peers[conn].addr;
    assert ps.Keys == peers.Keys - {conn};
    forall x | x in PeerAddrSet(ps) ensures x in PeerAddrSet(peers) - {a} {
      var c :| c in ps && ps[c].addr == x;
      assert c != conn && peers[c].addr == x;
    }
    forall x | x in PeerAddrSet(peers) - {a} ensures x in PeerAddrSet(ps) {
      var c :| c in peers && peers[c].addr == x;
      assert c != conn && c in ps && ps[c].addr == x;
    }
  }

  /** Removing the dropped peer's address keeps the list a mirror. */
  lemma ListDrop(addrs: seq<bytes>, peers: map<int, Peer>, a: bytes, ps: map<int, Peer>)
    requires ListMirrors(addrs, peers) && a in PeerAddrSet(peers)
    requires PeerAddrSet(ps) == PeerAddrSet(peers) - {a} && |ps| == |peers| - 1
    ensures ListMirrors(RemoveFirst(addrs, a), ps)
  {
    var r := RemoveFirst(addrs, a);
    assert a in addrs;
    assert multiset(r) == multiset(addrs) - multiset{a};
    forall x ensures x in r <==> x in PeerAddrSet(ps) {
      assert x in r <==> multiset(r)[x] > 0;
      assert x in addrs <==> multiset(addrs)[x] > 0;
    }
  }

  /** Events in order, each admissible in the state it meets. */
  ghost predicate AdmissibleTrace(m: Manager, es: seq<Event>)
    decreases |es|
  {
    es != [] ==> Admissible(m, es[0]) && AdmissibleTrace(Irq(m, es[0]).m, es[1..])
  }

  /** The state after a sequence of events. */
  function Run(m: Manager, es: seq<Event>): Manager
    requires AdmissibleTrace(m, es)
    decreases |es|
  {
    if es == [] then m else Run(Irq(m, es[0]).m, es[1..])
  }

  /** From a fresh manager, along any admissible event sequence the number
      of tracked peers never exceeds `max_peers` and the address list
      mirrors the peer map. */
  lemma {:induction false} RunPreservesInv(m: Manager, es: seq<Event>)
    requires Inv(m) && AdmissibleTrace(m, es)
    ensures Inv(Run(m, es)) && |Run(m, es).peers| <= m.cfg.maxPeers
    decreases |es|
  {
    if es != [] {
      IrqPreservesInv(m, es[0]);
      RunPreservesInv(Irq(m, es[0]).m, es[1..]);
    }
  }

  /** Without that assumption the limit is not enforced: a connect arriving
      with every slot taken is still recorded. */
  lemma ConnectIgnoresMaxPeers(svc: bytes, addr: bytes)
    ensures var m := Manager(Config(0, svc, false), map[], [], false);
            |Irq(m, PeripheralConnect(7, 0, addr)).m.peers| == 1 > m.cfg.maxPeers
  {
    var m := Manager(Config(0, svc, false), map[], [], false);
    assert Irq(m, PeripheralConnect(7, 0, addr)).m.peers.Keys == {7};
  }

  // ---------------------------------------------------------------------
  //  Connects that answer accepted scan results
  // ---------------------------------------------------------------------

  /** The manager together with what the radio is doing for it: whether a
      scan is running, and the addresses it has asked to connect to with
      `gap_connect` that have not connected yet. */
  datatype World = World(m: Manager, scanning: bool, asked: multiset<bytes>)

  /** Whether a scan runs after `calls`: the last `gap_scan` decides. */
  function ScanningAfter(scanning: bool, calls: seq<Call>): (r: bool)
    ensures (forall i | 0 <= i < |calls| :: !calls[i].GapScan?) ==> r == scanning
    ensures calls != [] && calls[|calls| - 1].GapScan? ==> r == !calls[|calls| - 1].mode.StopScan?
    ensures calls != [] && calls[0].GapScan? && (forall i | 1 <= i < |calls| :: !calls[i].GapScan?) ==>
              r == !calls[0].mode.StopScan?
    decreases |calls|
  {
    if calls == [] then scanning
    else ScanningAfter(if calls[0].GapScan? then !calls[0].mode.StopScan? else scanning, calls[1..])
  }

  /** `_handle_scan_result` with the room check the limit evidently
      intends: connects already asked for count against `max_peers`, and an
      address already asked for is not asked again. */
  function OnScanResultCounted(w: World, addrType: int, addr: bytes, advData: bytes): (r: World)
    ensures r.m.peers == w.m.peers && r.m.peerAddrs == w.m.peerAddrs && r.m.cfg == w.m.cfg
    ensures r.asked != w.asked <==>
              |w.m.peers| + |w.asked| < w.m.cfg.maxPeers && IsInfix(w.m.cfg.svcUuidBytes, advData)
              && addr !in w.m.peerAddrs && addr !in w.asked
    ensures r.asked != w.asked ==> r.asked == w.asked + multiset{addr} && r.m.connecting && !r.scanning
  {
    if |w.m.peers| + |w.asked| < w.m.cfg.maxPeers && Contains(advData, w.m.cfg.svcUuidBytes)
       && addr !in w.m.peerAddrs && addr !in w.asked
    then
      assert (w.asked + multiset{addr})[addr] == w.asked[addr] + 1;
      World(w.m.(connecting := true), false, w.asked + multiset{addr})
    else w
  }

  /** The radio after the manager handles `e`: a scan window that ends
      stops the scan, the handler's `gap_scan` calls start or stop one, an
      accepted scan result asks for its address, and a connect answers one
      request for its address. `counted` selects the scan-result check that
      counts outstanding requests. */
  function Deliver(w: World, e: Event, counted: bool): (r: World)
    requires CanHandle(w.m, e)
    ensures !(counted && e.ScanResult?) ==> r.m == Irq(w.m, e).m
    ensures !counted && e.ScanResult? ==>
              (r.asked != w.asked <==> Accepts(w.m, e.addr, e.advData))
              && (r.asked != w.asked ==> r.asked == w.asked + multiset{e.addr} && !r.scanning)
    ensures e.PeripheralConnect? ==> r.asked == w.asked - multiset{e.addr}
    ensures !e.ScanResult? && !e.PeripheralConnect? ==> r.asked == w.asked
  {
    if counted && e.ScanResult? then OnScanResultCounted(w, e.addrType, e.addr, e.advData)
    else
      var st := Irq(w.m, e);
      var scanning := if e.ScanDone? then false else w.scanning;
      var asked := if e.PeripheralConnect? then w.asked - multiset{e.addr}
                   else if e.ScanResult? && st.calls != [] then w.asked + multiset{e.addr}
                   else w.asked;
      assert e.ScanResult? && st.calls != [] ==> asked[e.addr] == w.asked[e.addr] + 1;
      World(st.m, ScanningAfter(scanning, st.calls), asked)
  }

  /** What the radio stack promises: scan results and the end of a scan
      window arrive only while a scan runs, a connect answers an
      outstanding request under a handle not in use, and a disconnect
      concerns a tracked link. Nothing here bounds the number of peers. */
  ghost predicate Grounded(w: World, e: Event)
  {
    && CanHandle(w.m, e)
    && (e.ScanResult? || e.ScanDone? ==> w.scanning)
    && (e.PeripheralConnect? ==> e.addr in w.asked && e.conn !in w.m.peers)
    && (e.PeripheralDisconnect? ==> e.conn in w.m.peers)
  }

  /** Events in order, each grounded in the world it meets. */
  ghost predicate GroundedTrace(w: World, es: seq<Event>, counted: bool)
    decreases |es|
  {
    es != [] ==> Grounded(w, es[0]) && GroundedTrace(Deliver(w, es[0], counted), es[1..], counted)
  }

  /** The world after a sequence of events. */
  function Replay(w: World, es: seq<Event>, counted: bool): World
    requires GroundedTrace(w, es, counted)
    decreases |es|
  {
    if es == [] then w else Replay(Deliver(w, es[0], counted), es[1..], counted)
  }

  /** The constructor's manager with its first fast scan running. */
  function Boot(cfg: Config): (w: World)
    ensures w.m == Init(cfg).m && w.scanning && w.asked == multiset{}
  {
    World(Init(cfg).m, true, multiset{})
  }

  /** One grounded event taking `w` to `w2`. */
  ghost predicate Moves(w: World, e: Event, w2: World, counted: bool)
  {
    Grounded(w, e) && Deliver(w, e, counted) == w2
  }

  lemma MovesCons(w: World, e: Event, w2: World, es: seq<Event>, counted: bool)
    requires Moves(w, e, w2, counted) && GroundedTrace(w2, es, counted)
    ensures GroundedTrace(w, [e] + es, counted)
    ensures Replay(w, [e] + es, counted) == Replay(w2, es, counted)
  {
    assert ([e] + es)[0] == e && ([e] + es)[1..] == es;
  }

  /** Four distinct advertiser addresses. */
  predicate Distinct4(q: bytes, p: bytes, a: bytes, c: bytes)
  {
    q != p && q != a && q != c && p != a && p != c && a != c
  }

  /** The first element and the tail of a concatenation led by `xs`. */
  lemma TailOfAppend<T>(xs: seq<T>, ys: seq<T>)
    requires xs != []
    ensures (xs + ys)[0] == xs[0] && (xs + ys)[1..] == xs[1..] + ys
  {
  }

  /** A trace split in two replays as its halves one after the other. */
  lemma {:induction false} TraceAppend(w: World, xs: seq<Event>, ys: seq<Event>, counted: bool)
    requires GroundedTrace(w, xs, counted) && GroundedTrace(Replay(w, xs, counted), ys, counted)
    ensures GroundedTrace(w, xs + ys, counted)
    ensures Replay(w, xs + ys, counted) == Replay(Replay(w, xs, counted), ys, counted)
    decreases |xs|
  {
    if xs != [] {
      var w1 := Deliver(w, xs[0], counted);
      assert Replay(w, xs, counted) == Replay(w1, xs[1..], counted);
      TailOfAppend(xs, ys);
      TraceAppend(w1, xs[1..], ys, counted);
    } else {
      assert xs + ys == ys;
    }
  }

  /** A trace of one grounded event. */
  lemma MovesOne(w: World, e: Event, w2: World, counted: bool)
    requires Moves(w, e, w2, counted)
    ensures GroundedTrace(w, [e], counted) && Replay(w, [e], counted) == w2
  {
    MovesCons(w, e, w2, [], counted);
    assert [e] + [] == [e];
  }

  /** A trace of two grounded events. */
  lemma MovesTwo(w: World, e1: Event, w1: World, e2: Event, w2: World, counted: bool)
    requires Moves(w, e1, w1, counted) && Moves(w1, e2, w2, counted)
    ensures GroundedTrace(w, [e1, e2], counted) && Replay(w, [e1, e2], counted) == w2
  {
    MovesOne(w1, e2, w2, counted);
    MovesCons(w, e1, w1, [e2], counted);
    assert [e1] + [e2] == [e1, e2];
  }

  // The scenario's worlds, with `max_peers` 2: Q, P, A and C are the
  // advertisers, handles 10 to 13 their connections.

  function CexConfig(svc: bytes): Config
  {
    Config(2, svc, false)
  }

  /** Q's peer record once its notify characteristic (value handle 20)
      has been found; the subscription itself is a write, not a field. */
  function CexQ(q: bytes): Peer
  {
    NewPeer(q, 10).(rxHandle := Some(20))
  }

  /** P's peer record once its notify characteristic (value handle 30)
      has been found. */
  function CexP(p: bytes): Peer
  {
    NewPeer(p, 11).(rxHandle := Some(30))
  }

  /** Q connected, not yet subscribed. */
  function CexQConnected(svc: bytes, q: bytes): World
  {
    World(Manager(CexConfig(svc), map[10 := NewPeer(q, 10)], [q], true), false, multiset{})
  }

  /** Q subscribed and the scan restarted. */
  function CexQReady(svc: bytes, q: bytes): World
  {
    World(Manager(CexConfig(svc), map[10 := CexQ(q)], [q], false), true, multiset{})
  }

  /** P connected next to Q. */
  function CexPConnected(svc: bytes, q: bytes, p: bytes): World
  {
    World(Manager(CexConfig(svc), map[10 := CexQ(q), 11 := NewPeer(p, 11)], [q, p], true), false, multiset{})
  }

  /** After the opening: Q subscribed and P's characteristics found; no
      connect request is outstanding, but `connecting` stays set until P's
      characteristic discovery completes. */
  function CexMidway(svc: bytes, q: bytes, p: bytes): World
  {
    World(Manager(CexConfig(svc), map[10 := CexQ(q), 11 := CexP(p)], [q, p], true), false, multiset{})
  }

  /** Q gone, the scan restarted. */
  function CexPAlone(svc: bytes, p: bytes): World
  {
    World(Manager(CexConfig(svc), map[11 := CexP(p)], [p], false), true, multiset{})
  }

  /** A asked for, and the scan restarted by P's late discovery end. */
  function CexAAsked(svc: bytes, p: bytes, a: bytes): World
  {
    World(Manager(CexConfig(svc), map[11 := CexP(p)], [p], false), true, multiset{a})
  }

  /** A and C both asked for. */
  function CexBothAsked(svc: bytes, p: bytes, a: bytes, c: bytes): World
  {
    World(Manager(CexConfig(svc), map[11 := CexP(p)], [p], true), false, multiset{a, c})
  }

  /** A connected, C still outstanding. */
  function CexAConnected(svc: bytes, p: bytes, a: bytes, c: bytes): World
  {
    World(Manager(CexConfig(svc), map[11 := CexP(p), 12 := NewPeer(a, 12)], [p, a], true), false, multiset{c})
  }

  /** After the closing: Q is gone and P, A and C are tracked. */
  function CexFinal(svc: bytes, p: bytes, a: bytes, c: bytes): (w: World)
    ensures |w.m.peers| == 3
  {
    var peers := map[11 := CexP(p), 12 := NewPeer(a, 12), 13 := NewPeer(c, 13)];
    assert peers.Keys == {11, 12, 13};
    World(Manager(CexConfig(svc), peers, [p, a, c], true), false, multiset{})
  }

  /** Q is accepted and connects. */
  lemma CexFirstConnects(svc: bytes, adv: bytes, q: bytes)
    requires IsInfix(svc, adv)
    ensures var es := [ScanResult(0, q, 0, 0, adv), PeripheralConnect(10, 0, q)];
            GroundedTrace(Boot(CexConfig(svc)), es, false)
            && Replay(Boot(CexConfig(svc)), es, false) == CexQConnected(svc, q)
  {
    var m0 := Init(CexConfig(svc)).m;
    assert multiset{q} - multiset{q} == multiset{};
    MovesTwo(Boot(CexConfig(svc)), ScanResult(0, q, 0, 0, adv), World(m0.(connecting := true), false, multiset{q}),
             PeripheralConnect(10, 0, q), CexQConnected(svc, q), false);
  }

  /** Q subscribes and the scan restarts. */
  lemma CexFirstSubscribes(svc: bytes, q: bytes)
    ensures var es := [CharacteristicResult(10, 0, 20, 0, VoteNotifyChar), CharacteristicDone(10, 0)];
            GroundedTrace(CexQConnected(svc, q), es, false)
            && Replay(CexQConnected(svc, q), es, false) == CexQReady(svc, q)
  {
    var w := CexQConnected(svc, q);
    MovesTwo(w, CharacteristicResult(10, 0, 20, 0, VoteNotifyChar), w.(m := w.m.(peers := map[10 := CexQ(q)])),
             CharacteristicDone(10, 0), CexQReady(svc, q), false);
  }

  /** P is accepted and connects. */
  lemma CexSecondPeer(svc: bytes, adv: bytes, q: bytes, p: bytes)
    requires IsInfix(svc, adv) && q != p
    ensures var es := [ScanResult(0, p, 0, 0, adv), PeripheralConnect(11, 0, p)];
            GroundedTrace(CexQReady(svc, q), es, false)
            && Replay(CexQReady(svc, q), es, false) == CexPConnected(svc, q, p)
  {
    var w := CexQReady(svc, q);
    assert multiset{p} - multiset{p} == multiset{};
    assert |w.m.peers| == 1;
    MovesTwo(w, ScanResult(0, p, 0, 0, adv), World(w.m.(connecting := true), false, multiset{p}),
             PeripheralConnect(11, 0, p), CexPConnected(svc, q, p), false);
  }

  /** P subscribes. */
  lemma CexSecondSubscribes(svc: bytes, q: bytes, p: bytes)
    ensures GroundedTrace(CexPConnected(svc, q, p), [CharacteristicResult(11, 0, 30, 0, VoteNotifyChar)], false)
    ensures Replay(CexPConnected(svc, q, p), [CharacteristicResult(11, 0, 30, 0, VoteNotifyChar)], false)
            == CexMidway(svc, q, p)
  {
    MovesOne(CexPConnected(svc, q, p), CharacteristicResult(11, 0, 30, 0, VoteNotifyChar), CexMidway(svc, q, p), false);
  }

  /** Q drops, which rescans. */
  lemma CexFirstDrops(svc: bytes, q: bytes, p: bytes)
    requires q != p
    ensures GroundedTrace(CexMidway(svc, q, p), [PeripheralDisconnect(10, 0, q)], false)
    ensures Replay(CexMidway(svc, q, p), [PeripheralDisconnect(10, 0, q)], false) == CexPAlone(svc, p)
  {
    assert map[10 := CexQ(q), 11 := CexP(p)] - {10} == map[11 := CexP(p)];
    assert [q, p][0] == q;
    MovesOne(CexMidway(svc, q, p), PeripheralDisconnect(10, 0, q), CexPAlone(svc, p), false);
  }

  /** A is accepted; P's discovery then ends, which rescans because a slot
      is free although A's connect is still outstanding. */
  lemma CexThirdAsked(svc: bytes, adv: bytes, p: bytes, a: bytes)
    requires IsInfix(svc, adv) && p != a
    ensures var es := [ScanResult(0, a, 0, 0, adv), CharacteristicDone(11, 0)];
            GroundedTrace(CexPAlone(svc, p), es, false)
            && Replay(CexPAlone(svc, p), es, false) == CexAAsked(svc, p, a)
  {
    var w := CexPAlone(svc, p);
    assert |w.m.peers| == 1;
    MovesTwo(w, ScanResult(0, a, 0, 0, adv), World(w.m.(connecting := true), false, multiset{a}),
             CharacteristicDone(11, 0), CexAAsked(svc, p, a), false);
  }

  /** C is accepted too. */
  lemma CexFourthAsked(svc: bytes, adv: bytes, p: bytes, a: bytes, c: bytes)
    requires IsInfix(svc, adv) && p != c
    ensures GroundedTrace(CexAAsked(svc, p, a), [ScanResult(0, c, 0, 0, adv)], false)
    ensures Replay(CexAAsked(svc, p, a), [ScanResult(0, c, 0, 0, adv)], false) == CexBothAsked(svc, p, a, c)
  {
    var w := CexAAsked(svc, p, a);
    assert |w.m.peers| == 1;
    assert multiset{a} + multiset{c} == multiset{a, c};
    MovesOne(w, ScanResult(0, c, 0, 0, adv), CexBothAsked(svc, p, a, c), false);
  }

  /** A connects. */
  lemma CexThirdConnects(svc: bytes, p: bytes, a: bytes, c: bytes)
    requires a != c
    ensures GroundedTrace(CexBothAsked(svc, p, a, c), [PeripheralConnect(12, 0, a)], false)
    ensures Replay(CexBothAsked(svc, p, a, c), [PeripheralConnect(12, 0, a)], false) == CexAConnected(svc, p, a, c)
  {
    assert multiset{a, c} - multiset{a} == multiset{c};
    MovesOne(CexBothAsked(svc, p, a, c), PeripheralConnect(12, 0, a), CexAConnected(svc, p, a, c), false);
  }

  /** C connects: a third peer with `max_peers` 2. */
  lemma CexFourthConnects(svc: bytes, p: bytes, a: bytes, c: bytes)
    ensures GroundedTrace(CexAConnected(svc, p, a, c), [PeripheralConnect(13, 0, c)], false)
    ensures Replay(CexAConnected(svc, p, a, c), [PeripheralConnect(13, 0, c)], false) == CexFinal(svc, p, a, c)
  {
    assert multiset{c} - multiset{c} == multiset{};
    MovesOne(CexAConnected(svc, p, a, c), PeripheralConnect(13, 0, c), CexFinal(svc, p, a, c), false);
  }

  /** The scenario: Q connects and subscribes; P connects and subscribes;
      Q drops (rescan); A is accepted, P's discovery end rescans and C is
      accepted; A and C both connect. */
  function CexEvents(adv: bytes, q: bytes, p: bytes, a: bytes, c: bytes): seq<Event>
  {
    CexOpening(adv, q, p) + CexClosing(adv, q, a, c)
  }

  function CexOpening(adv: bytes, q: bytes, p: bytes): seq<Event>
  {
    [ScanResult(0, q, 0, 0, adv), PeripheralConnect(10, 0, q)]
    + [CharacteristicResult(10, 0, 20, 0, VoteNotifyChar), CharacteristicDone(10, 0)]
    + [ScanResult(0, p, 0, 0, adv), PeripheralConnect(11, 0, p)]
    + [CharacteristicResult(11, 0, 30, 0, VoteNotifyChar)]
  }

  function CexClosing(adv: bytes, q: bytes, a: bytes, c: bytes): seq<Event>
  {
    [PeripheralDisconnect(10, 0, q)]
    + [ScanResult(0, a, 0, 0, adv), CharacteristicDone(11, 0)]
    + [ScanResult(0, c, 0, 0, adv)]
    + [PeripheralConnect(12, 0, a)]
    + [PeripheralConnect(13, 0, c)]
  }

  /** The opening replays to the midway world. */
  lemma CexOpeningReplays(svc: bytes, adv: bytes, q: bytes, p: bytes)
    requires IsInfix(svc, adv) && q != p
    ensures GroundedTrace(Boot(CexConfig(svc)), CexOpening(adv, q, p), false)
    ensures Replay(Boot(CexConfig(svc)), CexOpening(adv, q, p), false) == CexMidway(svc, q, p)
  {
    var w0 := Boot(CexConfig(svc));
    var s1 := [ScanResult(0, q, 0, 0, adv), PeripheralConnect(10, 0, q)];
    var s2 := [CharacteristicResult(10, 0, 20, 0, VoteNotifyChar), CharacteristicDone(10, 0)];
    var s3 := [ScanResult(0, p, 0, 0, adv), PeripheralConnect(11, 0, p)];
    var s4 := [CharacteristicResult(11, 0, 30, 0, VoteNotifyChar)];
    CexFirstConnects(svc, adv, q);
    CexFirstSubscribes(svc, q);
    TraceAppend(w0, s1, s2, false);
    CexSecondPeer(svc, adv, q, p);
    TraceAppend(w0, s1 + s2, s3, false);
    CexSecondSubscribes(svc, q, p);
    TraceAppend(w0, s1 + s2 + s3, s4, false);
  }

  /** The closing replays from the midway world to the final one. */
  lemma CexClosingReplays(svc: bytes, adv: bytes, q: bytes, p: bytes, a: bytes, c: bytes)
    requires IsInfix(svc, adv) && Distinct4(q, p, a, c)
    ensures GroundedTrace(CexMidway(svc, q, p), CexClosing(adv, q, a, c), false)
    ensures Replay(CexMidway(svc, q, p), CexClosing(adv, q, a, c), false) == CexFinal(svc, p, a, c)
  {
    var w := CexMidway(svc, q, p);
    var s1 := [PeripheralDisconnect(10, 0, q)];
    var s2 := [ScanResult(0, a, 0, 0, adv), CharacteristicDone(11, 0)];
    var s3 := [ScanResult(0, c, 0, 0, adv)];
    var s4 := [PeripheralConnect(12, 0, a)];
    var s5 := [PeripheralConnect(13, 0, c)];
    CexFirstDrops(svc, q, p);
    CexThirdAsked(svc, adv, p, a);
    TraceAppend(w, s1, s2, false);
    CexFourthAsked(svc, adv, p, a, c);
    TraceAppend(w, s1 + s2, s3, false);
    CexThirdConnects(svc, p, a, c);
    TraceAppend(w, s1 + s2 + s3, s4, false);
    CexFourthConnects(svc, p, a, c);
    TraceAppend(w, s1 + s2 + s3 + s4, s5, false);
  }

  /** As written, two connects can be outstanding at once, because the
      room check ignores a pending one: with `max_peers` 2 and any four
      distinct advertisers of the service, the scenario above is grounded
      and ends with three peers tracked. */
  lemma {:induction false} PendingConnectsExceedMax(svc: bytes, adv: bytes, q: bytes, p: bytes, a: bytes, c: bytes)
    requires IsInfix(svc, adv) && Distinct4(q, p, a, c)
    ensures GroundedTrace(Boot(CexConfig(svc)), CexEvents(adv, q, p, a, c), false)
    ensures |Replay(Boot(CexConfig(svc)), CexEvents(adv, q, p, a, c), false).m.peers| == 3
  {
    var w0 := Boot(CexConfig(svc));
    CexOpeningReplays(svc, adv, q, p);
    CexClosingReplays(svc, adv, q, p, a, c);
    TraceAppend(w0, CexOpening(adv, q, p), CexClosing(adv, q, a, c), false);
  }

  /** With outstanding requests counted, the peers plus the requests never
      exceed `max_peers`; the address list mirrors the peers; each address
      is asked for at most once and never while it is connected. */
  ghost predicate RoomInv(w: World)
  {
    && Inv(w.m)
    && |w.m.peers| + |w.asked| <= w.m.cfg.maxPeers
    && (forall a :: w.asked[a] <= 1)
    && (forall a :: a in w.asked ==> a !in w.m.peerAddrs)
  }

  /** A fresh manager with a non-negative limit starts with room. */
  lemma BootRoomInv(cfg: Config)
    requires cfg.maxPeers >= 0
    ensures RoomInv(Boot(cfg))
  {
  }

  /** With outstanding requests counted, every grounded event keeps the
      room invariant: room, address freshness and handle freshness at
      connect time are no longer assumed but follow from the scan results
      that asked for the connects. */
  lemma {:induction false} CountedKeepsRoom(w: World, e: Event)
    requires RoomInv(w) && Grounded(w, e)
    ensures RoomInv(Deliver(w, e, true))
  {
    if e.ScanResult? {
      ScanKeepsRoom(w, e);
    } else if e.PeripheralConnect? {
      ConnectKeepsRoom(w, e);
    } else if e.PeripheralDisconnect? {
      DisconnectKeepsRoom(w, e);
    } else {
      IrqPreservesInv(w.m, e);
    }
  }

  /** A counted scan result asks only for a fresh address while there is room. */
  lemma ScanKeepsRoom(w: World, e: Event)
    requires RoomInv(w) && Grounded(w, e) && e.ScanResult?
    ensures RoomInv(Deliver(w, e, true))
  {
    var r := Deliver(w, e, true);
    SameBooks(w.m, r.m);
    if r.asked != w.asked {
      forall a ensures r.asked[a] <= 1 {
        if a == e.addr {
          assert w.asked[a] == 0;
        }
      }
    }
  }

  /** A connect turns one outstanding request into a peer. */
  lemma ConnectKeepsRoom(w: World, e: Event)
    requires RoomInv(w) && Grounded(w, e) && e.PeripheralConnect?
    ensures RoomInv(Deliver(w, e, true))
  {
    var r := Deliver(w, e, true);
    assert w.asked[e.addr] == 1;
    assert |r.asked| == |w.asked| - 1;
    ConnectPreservesInv(w.m, e.conn, e.addr);
    assert r.asked[e.addr] == 0;
  }

  /** A disconnect frees a slot and asks for nothing. */
  lemma DisconnectKeepsRoom(w: World, e: Event)
    requires RoomInv(w) && Grounded(w, e) && e.PeripheralDisconnect?
    ensures RoomInv(Deliver(w, e, true))
  {
    var r := Deliver(w, e, true);
    DisconnectPreservesInv(w.m, e.conn);
    CardKeys(r.m.peers, w.m.peers);
    forall a | a in r.m.peerAddrs ensures a in w.m.peerAddrs {
      assert multiset(r.m.peerAddrs)[a] <= multiset(w.m.peerAddrs)[a];
    }
  }

  /** Along any grounded sequence of events with outstanding requests
      counted, the manager never tracks more than `max_peers` peers. */
  lemma {:induction false} CountedRunKeepsRoom(w: World, es: seq<Event>)
    requires RoomInv(w) && GroundedTrace(w, es, true)
    ensures RoomInv(Replay(w, es, true)) && |Replay(w, es, true).m.peers| <= w.m.cfg.maxPeers
    decreases |es|
  {
    if es != [] {
      CountedKeepsRoom(w, es[0]);
      CountedRunKeepsRoom(Deliver(w, es[0], true), es[1..]);
    }
  }

  /** The counted check differs from the one as written only while a
      connect is outstanding. */
  lemma CountedAgreesWhenIdle(w: World, e: Event)
    requires CanHandle(w.m, e) && w.asked == multiset{}
    ensures Deliver(w, e, true) == Deliver(w, e, false)
  {
  }
}

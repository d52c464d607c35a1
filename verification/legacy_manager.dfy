/** The older central-role manager of src/central/vote.py.

    Compared with src/central/ble_vote_manager.py it keeps an address →
    handle map instead of an address list, has no `connecting` flag and no
    scan-done handler, checks the connect status, resumes scanning with the
    stack's default duty cycle, and swaps the handle roles: here `txHandle`
    is the notify characteristic and `rxHandle` the write characteristic. */
module LegacyManager {
  import opened Common
  import opened Ble
  import Text

  datatype Config = Config(maxPeers: int, svcUuidBytes: bytes, hasOnRx: bool)

  datatype Manager = Manager(cfg: Config, peers: map<int, Peer>, addrToConn: map<bytes, int>)

  /** The `str | bytes` argument of `send`. */
  datatype Message = Str(text: string) | Bin(payload: Payload)

  /** The `_irq` events this manager dispatches; any other code (scan-done
      included) is `OtherEvent`. */
  datatype Event =
    | ScanResult(addrType: int, addr: bytes, advType: int, rssi: int, advData: bytes)
    | PeripheralConnect(conn: int, addrType: int, addr: bytes, status: int)
    | PeripheralDisconnect(conn: int, addrType: int, addr: bytes, reason: int)
    | ServiceResult(conn: int, startHandle: int, endHandle: int, uuid: Uuid)
    | ServiceDone(conn: int, status: int)
    | CharacteristicResult(conn: int, defHandle: int, valueHandle: int, properties: int, uuid: Uuid)
    | CharacteristicDone(conn: int, status: int)
    | Notify(conn: int, valueHandle: int, data: Payload)
    | OtherEvent(code: int)

  datatype Step = Step(m: Manager, calls: seq<Call>)

  /** The constructor: nothing tracked and, unlike the newer manager, no scan yet. */
  function Init(cfg: Config): (m: Manager)
    ensures m.cfg == cfg && m.peers == map[] && m.addrToConn == map[]
    ensures cfg.maxPeers >= 0 ==> Inv(m)
  {
    Manager(cfg, map[], map[])
  }

  /** `auto_connect(scan_ms)`: scan for `scan_ms` (0 = forever) at 30 ms per 30 ms. */
  function AutoConnect(m: Manager, scanMs: int): (r: Step)
    ensures r.m == m && r.calls == [GapScan(Windowed(scanMs))]
    ensures ScanArgs(r.calls[0].mode) == Some((scanMs, 30000, 30000))
  {
    Step(m, [GapScan(Windowed(scanMs))])
  }

  /** A scan result connects only while a slot is free, the service UUID
      bytes occur in the advertising data and the address is not a key of
      the address map; the state itself never changes. */
  function OnScanResult(m: Manager, addrType: int, addr: bytes, advData: bytes): (r: Step)
    ensures r.m == m
    ensures r.calls != [] <==>
              |m.peers| < m.cfg.maxPeers && IsInfix(m.cfg.svcUuidBytes, advData) && addr !in m.addrToConn
    ensures r.calls != [] ==> r.calls == [GapScan(StopScan), GapConnect(addrType, addr)]
  {
    if |m.peers| < m.cfg.maxPeers && Contains(advData, m.cfg.svcUuidBytes) && addr !in m.addrToConn then
      Step(m, [GapScan(StopScan), GapConnect(addrType, addr)])
    else
      Step(m, [])
  }

  /** The container kinds of MicroPython's array type. */
  datatype ArrayKind = Bytearray | Memoryview | TypedArray

  /** `needle in container` for MicroPython's array type when the needle
      supports the buffer protocol (a `bluetooth.UUID` does): only a
      `bytearray` searches for the needle's bytes; any other array kind
      answers false. */
  function ArrayContains(kind: ArrayKind, hay: bytes, needle: bytes): (r: bool)
    ensures r <==> kind == Bytearray && IsInfix(needle, hay)
  {
    kind == Bytearray && Contains(hay, needle)
  }

  /** `_handle_scan_result` as written: the advertising data arrives as a
      memoryview and the UUID object is tested against it directly, so the
      service test never holds and no scan result ever leads to a connect. */
  function OnScanResultAsWritten(m: Manager, addrType: int, addr: bytes, advData: bytes): (r: Step)
    ensures r.m == m && r.calls == []
  {
    if |m.peers| < m.cfg.maxPeers && ArrayContains(Memoryview, advData, m.cfg.svcUuidBytes)
       && addr !in m.addrToConn
    then
      Step(m, [GapScan(StopScan), GapConnect(addrType, addr)])
    else
      Step(m, [])
  }

  /** Every advertiser the byte-level test connects to is ignored as
      written. */
  lemma AsWrittenMissesEveryAdvertiser(m: Manager, addrType: int, addr: bytes, advData: bytes)
    requires OnScanResult(m, addrType, addr, advData).calls != []
    ensures OnScanResultAsWritten(m, addrType, addr, advData).calls == []
    ensures IsInfix(m.cfg.svcUuidBytes, advData) && |m.peers| < m.cfg.maxPeers
  {
  }

  /** The byte-level test (the newer manager converts the view with
      `bytes(adv_data)` first) connects to a fresh advertiser of the
      service, where the test as written does not. */
  lemma ByteTestConnects(svc: bytes, addr: bytes)
    ensures var m := Init(Config(1, svc, false));
            && OnScanResult(m, 0, addr, svc).calls == [GapScan(StopScan), GapConnect(0, addr)]
            && OnScanResultAsWritten(m, 0, addr, svc).calls == []
  {
    assert svc[..|svc|] == svc;
  }

  /** A failed connect records nothing and resumes an indefinite scan; a
      successful one records the peer under its handle and the address →
      handle mapping, then starts service discovery. */
  function OnPeripheralConnect(m: Manager, conn: int, addr: bytes, status: int): (r: Step)
    ensures r.m.cfg == m.cfg
    ensures status != 0 ==> r.m == m && r.calls == [GapScan(DefaultForever)]
    ensures status == 0 ==>
              && r.m.peers == m.peers[conn := NewPeer(addr, conn)]
              && r.m.addrToConn == m.addrToConn[addr := conn]
              && r.calls == [DiscoverServices(conn)]
  {
    if status != 0 then
      Step(m, [GapScan(DefaultForever)])
    else
      Step(m.(peers := m.peers[conn := NewPeer(addr, conn)], addrToConn := m.addrToConn[addr := conn]),
           [DiscoverServices(conn)])
  }

  /** The vote service's range is recorded on the peer, which must exist
      (the source indexes the map without a guard). */
  function OnServiceResult(m: Manager, conn: int, startHandle: int, endHandle: int, uuid: Uuid): (r: Step)
    requires uuid == VoteService ==> conn in m.peers
    ensures r.calls == [] && r.m.peers.Keys == m.peers.Keys && r.m.addrToConn == m.addrToConn
    ensures uuid == VoteService ==> r.m.peers[conn] == m.peers[conn].(svcRange := Some((startHandle, endHandle)))
    ensures uuid != VoteService ==> r.m == m
    ensures forall c :: c in m.peers && c != conn ==> r.m.peers[c] == m.peers[c]
  {
    if uuid == VoteService then
      Step(m.(peers := m.peers[conn := m.peers[conn].(svcRange := Some((startHandle, endHandle)))]), [])
    else
      Step(m, [])
  }

  /** Characteristic discovery over the recorded range, only for a known
      peer, status 0 and a recorded range. */
  function OnServiceDone(m: Manager, conn: int, status: int): (r: Step)
    ensures r.m == m
    ensures r.calls != [] <==> conn in m.peers && status == 0 && m.peers[conn].svcRange.Some?
    ensures r.calls != [] ==>
              r.calls == [DiscoverCharacteristics(conn, m.peers[conn].svcRange.value.0, m.peers[conn].svcRange.value.1)]
  {
    if conn !in m.peers || status != 0 || m.peers[conn].svcRange.None? then
      Step(m, [])
    else
      var (s, e) := m.peers[conn].svcRange.value;
      Step(m, [DiscoverCharacteristics(conn, s, e)])
  }

  /** The notify UUID resolves `txHandle` and the write UUID `rxHandle`
      (the reverse of the newer manager); unknown connections are ignored. */
  function OnCharacteristicResult(m: Manager, conn: int, valueHandle: int, uuid: Uuid): (r: Step)
    ensures r.calls == [] && r.m.peers.Keys == m.peers.Keys && r.m.addrToConn == m.addrToConn
    ensures conn !in m.peers || (uuid != VoteNotifyChar && uuid != VoteWriteChar) ==> r.m == m
    ensures conn in m.peers && uuid == VoteNotifyChar ==>
              r.m.peers[conn] == m.peers[conn].(txHandle := Some(valueHandle))
    ensures conn in m.peers && uuid == VoteWriteChar ==>
              r.m.peers[conn] == m.peers[conn].(rxHandle := Some(valueHandle))
    ensures forall c :: c in m.peers && c != conn ==> r.m.peers[c] == m.peers[c]
  {
    if conn !in m.peers then Step(m, [])
    else if uuid == VoteNotifyChar then
      Step(m.(peers := m.peers[conn := m.peers[conn].(txHandle := Some(valueHandle))]), [])
    else if uuid == VoteWriteChar then
      Step(m.(peers := m.peers[conn := m.peers[conn].(rxHandle := Some(valueHandle))]), [])
    else
      Step(m, [])
  }

  /** With the notify handle resolved: write little-endian 1
      (`struct.pack("<h", 1)`) to notify handle + 1, and resume the
      indefinite scan while a slot is free. */
  function OnCharacteristicDone(m: Manager, conn: int, status: int): (r: Step)
    ensures r.m == m
    ensures r.calls != [] <==> conn in m.peers && status == 0 && m.peers[conn].txHandle.Some?
    ensures r.calls != [] ==>
              r.calls[0] == GattcWrite(conn, m.peers[conn].txHandle.value + 1, Raw(PackI16LE(1)), 1)
              && UnpackI16LE(r.calls[0].data.data) == 1
              && (|r.calls| == 2 <==> |m.peers| < m.cfg.maxPeers)
              && (|r.calls| == 2 ==> r.calls[1] == GapScan(DefaultForever))
              && |r.calls| <= 2
  {
    if conn !in m.peers || status != 0 || m.peers[conn].txHandle.None? then
      Step(m, [])
    else
      var cccd := m.peers[conn].txHandle.value + 1;
      var rescan := if |m.peers| < m.cfg.maxPeers then [GapScan(DefaultForever)] else [];
      Step(m, [GattcWrite(conn, cccd, Raw(PackI16LE(1)), 1)] + rescan)
  }

  /** A notification goes to `on_rx` when one is registered. */
  function OnNotify(m: Manager, conn: int, data: Payload): (r: Step)
    ensures r.m == m
    ensures r.calls == (if m.cfg.hasOnRx then [OnRx(conn, data)] else [])
  {
    Step(m, if m.cfg.hasOnRx then [OnRx(conn, data)] else [])
  }

  /** A lost link: the peer entry and the mapping of the event's address
      are both dropped (either may be missing), then scanning resumes. */
  function OnPeripheralDisconnect(m: Manager, conn: int, addr: bytes): (r: Step)
    ensures r.m.peers.Keys == m.peers.Keys - {conn}
    ensures forall c :: c in r.m.peers ==> r.m.peers[c] == m.peers[c]
    ensures r.m.addrToConn.Keys == m.addrToConn.Keys - {addr}
    ensures forall a :: a in r.m.addrToConn ==> r.m.addrToConn[a] == m.addrToConn[a]
    ensures r.m.cfg == m.cfg && r.calls == [GapScan(DefaultForever)]
  {
    Step(Manager(m.cfg, m.peers - {conn}, m.addrToConn - {addr}), [GapScan(DefaultForever)])
  }

  predicate CanHandle(m: Manager, e: Event)
  {
    e.ServiceResult? && e.uuid == VoteService ==> e.conn in m.peers
  }

  /** `_irq`: dispatch on the event code; other codes do nothing. */
  function Irq(m: Manager, e: Event): (r: Step)
    requires CanHandle(m, e)
    ensures r.m.cfg == m.cfg
    ensures e.OtherEvent? ==> r == Step(m, [])
  {
    match e
    case ScanResult(addrType, addr, _, _, advData) => OnScanResult(m, addrType, addr, advData)
    case PeripheralConnect(conn, _, addr, status) => OnPeripheralConnect(m, conn, addr, status)
    case PeripheralDisconnect(conn, _, addr, _) => OnPeripheralDisconnect(m, conn, addr)
    case ServiceResult(conn, s, en, uuid) => OnServiceResult(m, conn, s, en, uuid)
    case ServiceDone(conn, status) => OnServiceDone(m, conn, status)
    case CharacteristicResult(conn, _, vh, _, uuid) => OnCharacteristicResult(m, conn, vh, uuid)
    case CharacteristicDone(conn, status) => OnCharacteristicDone(m, conn, status)
    case Notify(conn, _, data) => OnNotify(m, conn, data)
    case OtherEvent(_) => Step(m, [])
  }

  // ---------------------------------------------------------------------
  //  Sending
  // ---------------------------------------------------------------------

  /** `msg.encode()` for a `str`; bytes go out unchanged. */
  function Encode(msg: Message): (p: Payload)
    ensures msg.Bin? ==> p == msg.payload
    ensures msg.Str? ==> p == Raw(Text.Utf8Encode(msg.text))
    ensures msg.Str? ==> |msg.text| <= |p.data| <= 4 * |msg.text| && Text.Utf8Decode(p.data) == Some(msg.text)
  {
    match msg
    case Str(s) => Text.Utf8RoundTrip(s); Raw(Text.Utf8Encode(s))
    case Bin(p) => p
  }

  function WriteHandle(m: Manager, conn: int): (h: Option<int>)
    ensures h.Some? <==> conn in m.peers && m.peers[conn].rxHandle.Some?
  {
    if conn in m.peers then m.peers[conn].rxHandle else None
  }

  /** `send`: the encoded message written to the peer's write handle, or
      nothing for an unknown peer or an unresolved handle. */
  function Send(m: Manager, conn: int, msg: Message): (r: seq<Call>)
    ensures r != [] <==> conn in m.peers && m.peers[conn].rxHandle.Some?
    ensures r != [] ==> r == [GattcWrite(conn, m.peers[conn].rxHandle.value, Encode(msg), 1)]
  {
    if conn in m.peers && m.peers[conn].rxHandle.Some? then
      [GattcWrite(conn, m.peers[conn].rxHandle.value, Encode(msg), 1)]
    else
      []
  }

  /** `broadcast`: `send` to each key of a snapshot of the peer map. */
  function Broadcast(m: Manager, order: seq<int>, msg: Message): seq<Call>
    requires forall i, j :: 0 <= i < j < |order| ==> order[i] != order[j]
  {
    WriteEach(order, c => WriteHandle(m, c), Encode(msg))
  }

  /** Exactly one write per peer whose write handle is resolved, each to
      that peer's own handle, when the snapshot lists every peer once. */
  lemma {:induction false} BroadcastOncePerPeer(m: Manager, order: seq<int>, msg: Message)
    requires forall i, j :: 0 <= i < j < |order| ==> order[i] != order[j]
    requires forall c :: c in order <==> c in m.peers
    ensures |Broadcast(m, order, msg)| == |set c | c in m.peers && m.peers[c].rxHandle.Some?|
    ensures forall i :: 0 <= i < |Broadcast(m, order, msg)| ==>
              var w := Broadcast(m, order, msg)[i];
              w.conn in m.peers && m.peers[w.conn].rxHandle.Some?
              && w == GattcWrite(w.conn, m.peers[w.conn].rxHandle.value, Encode(msg), 1)
  {
    var f := c => WriteHandle(m, c);
    WriteEachOncePerTarget(order, f, Encode(msg));
    assert Targets(order, f) == set c | c in m.peers && m.peers[c].rxHandle.Some? by {
      forall c ensures c in Targets(order, f) <==> c in m.peers && m.peers[c].rxHandle.Some? {
        assert f(c) == WriteHandle(m, c);
      }
    }
  }

  // ---------------------------------------------------------------------
  //  Peer-map invariant
  // ---------------------------------------------------------------------

  /** Each peer is keyed by its own handle. */
  ghost predicate Keyed(peers: map<int, Peer>)
  {
    forall c :: c in peers ==> peers[c].connHandle == c
  }

  /** The address map is exactly the inverse of the peer map. */
  ghost predicate Inverse(peers: map<int, Peer>, am: map<bytes, int>)
  {
    && (forall c :: c in peers ==> peers[c].addr in am && am[peers[c].addr] == c)
    && (forall a :: a in am ==> am[a] in peers && peers[am[a]].addr == a)
  }

  /** At most `max_peers` peers, each keyed by its own handle, and the
      address map is exactly the inverse of the peer map. */
  ghost predicate Inv(m: Manager)
  {
    |m.peers| <= m.cfg.maxPeers && Keyed(m.peers) && Inverse(m.peers, m.addrToConn)
  }

  /** Environment assumptions: a successful connect answers an accepted
      scan result while its slot is free, with a fresh handle and address;
      a disconnect reports the address the link was made with. */
  ghost predicate Admissible(m: Manager, e: Event)
  {
    && CanHandle(m, e)
    && (e.PeripheralConnect? && e.status == 0 ==>
          |m.peers| < m.cfg.maxPeers && e.conn !in m.peers && e.addr !in m.addrToConn)
    && (e.PeripheralDisconnect? ==>
          if e.conn in m.peers then e.addr == m.peers[e.conn].addr else e.addr !in m.addrToConn)
  }

  /** Every admissible event preserves the invariant. */
  lemma {:induction false} IrqPreservesInv(m: Manager, e: Event)
    requires Inv(m) && Admissible(m, e)
    ensures Inv(Irq(m, e).m)
  {
    match e {
      case PeripheralConnect(conn, _, addr, status) =>
        if status == 0 {
          ConnectPreservesInv(m, conn, addr);
        }
      case PeripheralDisconnect(conn, _, addr, _) =>
        DisconnectPreservesInv(m, conn, addr);
      case ServiceResult(conn, s, en, uuid) =>
        HandleUpdatePreservesInv(m, OnServiceResult(m, conn, s, en, uuid).m, conn);
      case CharacteristicResult(conn, _, vh, _, uuid) =>
        HandleUpdatePreservesInv(m, OnCharacteristicResult(m, conn, vh, uuid).m, conn);
      case _ =>
    }
  }

  lemma ConnectPreservesInv(m: Manager, conn: int, addr: bytes)
    requires Inv(m) && |m.peers| < m.cfg.maxPeers && conn !in m.peers && addr !in m.addrToConn
    ensures Inv(OnPeripheralConnect(m, conn, addr, 0).m)
  {
    AddPairPreservesInv(m, conn, addr);
  }

  /** Recording a fresh peer together with its own address mapping. */
  lemma AddPairPreservesInv(m: Manager, conn: int, addr: bytes)
    requires Inv(m) && |m.peers| < m.cfg.maxPeers && conn !in m.peers && addr !in m.addrToConn
    ensures Inv(Manager(m.cfg, m.peers[conn := NewPeer(addr, conn)], m.addrToConn[addr := conn]))
  {
    var ps := m.peers[conn := NewPeer(addr, conn)];
    assert ps.Keys == m.peers.Keys + {conn};
    assert |ps| == |m.peers| + 1;
    AddInverse(m.peers, m.addrToConn, conn, addr);
  }

  lemma AddInverse(peers: map<int, Peer>, am: map<bytes, int>, conn: int, addr: bytes)
    requires Inverse(peers, am) && conn !in peers && addr !in am
    ensures Inverse(peers[conn := NewPeer(addr, conn)], am[addr := conn])
  {
    var ps := peers[conn := NewPeer(addr, conn)];
    var am' := am[addr := conn];
    forall c | c in ps
      ensures ps[c].addr in am' && am'[ps[c].addr] == c
    {
      if c != conn {
        assert ps[c] == peers[c];
        assert peers[c].addr != addr;
      }
    }
    forall a | a in am'
      ensures am'[a] in ps && ps[am'[a]].addr == a
    {
      if a != addr {
        assert am'[a] == am[a];
        assert am[a] != conn;
      }
    }
  }

  lemma DisconnectPreservesInv(m: Manager, conn: int, addr: bytes)
    requires Inv(m)
    requires if conn in m.peers then addr == m.peers[conn].addr else addr !in m.addrToConn
    ensures Inv(OnPeripheralDisconnect(m, conn, addr).m)
  {
    if conn in m.peers {
      DropPairPreservesInv(m, conn);
    } else {
      RemoveAbsent(m.peers, conn);
      RemoveAbsent(m.addrToConn, addr);
    }
  }

  lemma RemoveAbsent<K, V>(mp: map<K, V>, k: K)
    requires k !in mp
    ensures mp - {k} == mp
  {
  }

  /** Dropping a tracked peer together with its own address mapping. */
  lemma DropPairPreservesInv(m: Manager, conn: int)
    requires Inv(m) && conn in m.peers
    ensures Inv(Manager(m.cfg, m.peers - {conn}, m.addrToConn - {m.peers[conn].addr}))
  {
    var ps := m.peers - {conn};
    assert ps.Keys == m.peers.Keys - {conn};
    assert |ps| == |m.peers| - 1;
    DropInverse(m.peers, m.addrToConn, conn);
  }

  lemma DropInverse(peers: map<int, Peer>, am: map<bytes, int>, conn: int)
    requires Inverse(peers, am) && conn in peers
    ensures Inverse(peers - {conn}, am - {peers[conn].addr})
  {
    var addr := peers[conn].addr;
    var ps := peers - {conn};
    var am' := am - {addr};
    forall c | c in ps
      ensures ps[c].addr in am' && am'[ps[c].addr] == c
    {
      assert peers[c].addr != addr;
    }
    forall a | a in am'
      ensures am'[a] in ps && ps[am'[a]].addr == a
    {
      assert am[a] != conn;
    }
  }

  /** Resolving a handle or a service range keeps every peer's key,
      address and connection handle, so the invariant survives. */
  lemma HandleUpdatePreservesInv(m: Manager, r: Manager, conn: int)
    requires Inv(m)
    requires r.cfg == m.cfg && r.addrToConn == m.addrToConn && r.peers.Keys == m.peers.Keys
    requires forall c :: c in m.peers && c != conn ==> r.peers[c] == m.peers[c]
    requires conn in m.peers ==> r.peers[conn].addr == m.peers[conn].addr
                                 && r.peers[conn].connHandle == m.peers[conn].connHandle
    ensures Inv(r)
  {
    assert |r.peers| == |r.peers.Keys| == |m.peers.Keys| == |m.peers|;
  }
}

/** Vocabulary shared by the central and the peripheral firmware.

    The service and characteristic UUIDs and the command/vote byte strings
    live in a `lib.consts` module that is not part of this model, so they
    are abstract, pairwise-distinct constructors here. Scan duty cycles keep
    the literal `gap_scan` arguments of src/central/ble_vote_manager.py
    and src/central/vote.py. */
module Ble {
  import opened Common

  /** A 128-bit UUID as the radio stack reports it: one of the three vote
      identities, or any other UUID. */
  datatype Uuid = VoteService | VoteNotifyChar | VoteWriteChar | OtherUuid(id: int)

  /** `VoteCommand` values sent central → peripheral. */
  datatype Command = Start | Stop | IndicateYes | IndicateNo | IndicateNone

  /** `VoteInfo` values sent peripheral → central. */
  datatype VoteInfo = Yes | No

  /** A GATT payload: one of the agreed constants, or any other byte string
      (such as the CCCD value `01 00`). Distinct constructors stand for
      distinct byte strings. */
  datatype Payload = Cmd(cmd: Command) | Vote(vote: VoteInfo) | Raw(data: bytes)

  /** Scan duty cycles requested with `gap_scan`. */
  datatype Scan =
    | FastBriefly            // `_scan_fast_briefly`: 5 s at 30 ms per 60 ms
    | SlowForever            // `_scan_slow_forever`: indefinitely at 15 ms per 300 ms
    | StopScan               // `gap_scan(None)`
    | DefaultForever         // `gap_scan(0)`: indefinitely, stack default duty cycle
    | Windowed(durationMs: int) // `gap_scan(ms, 30000, 30000)` of `auto_connect`

  const FAST_SCAN_WIN_US: int := 30000
  const FAST_SCAN_INT_US: int := 60000
  const FAST_CONNECT_MS: int := 5000
  const SLOW_SCAN_WIN_US: int := 15000
  const SLOW_SCAN_INT_US: int := 300000

  /** The `(duration_ms, interval_us, window_us)` arguments of the
      `gap_scan` call; `None` for a stop request or when the stack's
      defaults apply to interval and window. */
  function ScanArgs(s: Scan): (r: Option<(int, int, int)>)
    ensures s.FastBriefly? ==> r.Some? && r.value.0 > 0 && 2 * r.value.2 == r.value.1
    ensures s.SlowForever? ==> r.Some? && r.value.0 == 0 && 20 * r.value.2 == r.value.1
    ensures s.Windowed? ==> r.Some? && r.value.1 == r.value.2
    ensures s.StopScan? || s.DefaultForever? ==> r.None?
  {
    match s
    case FastBriefly => Some((FAST_CONNECT_MS, FAST_SCAN_INT_US, FAST_SCAN_WIN_US))
    case SlowForever => Some((0, SLOW_SCAN_INT_US, SLOW_SCAN_WIN_US))
    case Windowed(ms) => Some((ms, 30000, 30000))
    case StopScan => None
    case DefaultForever => None
  }

  /** The Client Characteristic Configuration value that enables
      notifications (section 3.3.3.3 of the Bluetooth Core Specification,
      Vol 3, Part G): the 16-bit value 1, little-endian. */
  const ENABLE_NOTIFY: bytes := [1, 0]

  /** `struct.pack("<h", v)`: a signed 16-bit value, little-endian. */
  function PackI16LE(v: int): (b: bytes)
    requires -32768 <= v < 32768
    ensures |b| == 2
  {
    var u := if v < 0 then v + 65536 else v;
    [u % 256, u / 256]
  }

  /** `struct.unpack("<h", b)[0]`. */
  function UnpackI16LE(b: bytes): int
    requires |b| == 2
  {
    var u: int := b[0] as int + 256 * (b[1] as int);
    if u >= 32768 then u - 65536 else u
  }

  /** Packing then unpacking a 16-bit value gives it back; in particular
      the pre-packed `01 00` is the packing of 1. */
  lemma PackI16LERoundTrip(v: int)
    requires -32768 <= v < 32768
    ensures UnpackI16LE(PackI16LE(v)) == v
    ensures PackI16LE(1) == ENABLE_NOTIFY
  {
  }

  /** Book-keeping for one connected peripheral (`_Peer`): its address,
      connection handle, the two resolved characteristic value handles and
      the attribute range of the vote service. Which of `txHandle` and
      `rxHandle` is the notify one differs between the two managers. */
  datatype Peer = Peer(
    addr: bytes,
    connHandle: int,
    txHandle: Option<int>,
    rxHandle: Option<int>,
    svcRange: Option<(int, int)>)

  /** A fresh `_Peer(addr)` once its connection handle has been recorded. */
  function NewPeer(addr: bytes, conn: int): (p: Peer)
    ensures p.addr == addr && p.connHandle == conn
    ensures p.txHandle.None? && p.rxHandle.None? && p.svcRange.None?
  {
    Peer(addr, conn, None, None, None)
  }

  /** Calls a central-role handler makes into the radio stack or into the
      application's receive callback. */
  datatype Call =
    | GapScan(mode: Scan)
    | GapConnect(addrType: int, addr: bytes)
    | DiscoverServices(conn: int)
    | DiscoverCharacteristics(conn: int, startHandle: int, endHandle: int)
    | GattcWrite(conn: int, handle: int, data: Payload, writeMode: int)
    | OnRx(conn: int, data: Payload)

  /** Every call of `r` is a `gattc_write` of `msg` in write mode 1 to a
      connection of `order`, through that connection's known handle. */
  ghost predicate WritesVia(r: seq<Call>, order: seq<int>, handle: int -> Option<int>, msg: Payload)
  {
    forall i :: 0 <= i < |r| ==>
      r[i].GattcWrite? && r[i].conn in order && handle(r[i].conn).Some?
      && r[i] == GattcWrite(r[i].conn, handle(r[i].conn).value, msg, 1)
  }

  /** No two calls of `r` go to the same connection. */
  ghost predicate DistinctConns(r: seq<Call>)
  {
    forall i, j :: 0 <= i < j < |r| && r[i].GattcWrite? && r[j].GattcWrite? ==> r[i].conn != r[j].conn
  }

  /** Every connection of `order` with a known handle receives a call. */
  ghost predicate Covers(r: seq<Call>, order: seq<int>, handle: int -> Option<int>)
  {
    forall c :: c in order && handle(c).Some? ==> exists i :: 0 <= i < |r| && r[i].GattcWrite? && r[i].conn == c
  }

  /** One `gattc_write(conn, handle, msg, 1)` per connection of `order`
      whose write handle `handle(conn)` is known, in order; the loop of
      `broadcast` over a snapshot of the peer keys. */
  function WriteEach(order: seq<int>, handle: int -> Option<int>, msg: Payload): (r: seq<Call>)
    requires forall i, j :: 0 <= i < j < |order| ==> order[i] != order[j]
    ensures WritesVia(r, order, handle, msg) && DistinctConns(r) && Covers(r, order, handle)
    decreases |order|
  {
    if order == [] then []
    else
      var head := if handle(order[0]).Some? then [GattcWrite(order[0], handle(order[0]).value, msg, 1)] else [];
      var rest := WriteEach(order[1..], handle, msg);
      WriteEachCons(order, handle, msg, head, rest);
      head + rest
  }

  lemma WriteEachCons(order: seq<int>, handle: int -> Option<int>, msg: Payload, head: seq<Call>, rest: seq<Call>)
    requires order != [] && forall i, j :: 0 <= i < j < |order| ==> order[i] != order[j]
    requires head == if handle(order[0]).Some? then [GattcWrite(order[0], handle(order[0]).value, msg, 1)] else []
    requires WritesVia(rest, order[1..], handle, msg) && DistinctConns(rest) && Covers(rest, order[1..], handle)
    ensures var r := head + rest;
            WritesVia(r, order, handle, msg) && DistinctConns(r) && Covers(r, order, handle)
  {
    var r := head + rest;
    assert forall i :: 0 <= i < |rest| ==> rest[i].conn in order[1..];
    forall i | 0 <= i < |r|
      ensures r[i].GattcWrite? && r[i].conn in order && handle(r[i].conn).Some?
              && r[i] == GattcWrite(r[i].conn, handle(r[i].conn).value, msg, 1)
    {
      if i >= |head| {
        assert r[i] == rest[i - |head|];
      }
    }
    forall i, j | 0 <= i < j < |r| && r[i].GattcWrite? && r[j].GattcWrite? ensures r[i].conn != r[j].conn {
      if i < |head| {
        assert r[j] == rest[j - |head|];
        assert r[j].conn in order[1..];
      }
    }
    forall c | c in order && handle(c).Some?
      ensures exists i :: 0 <= i < |r| && r[i].GattcWrite? && r[i].conn == c
    {
      if c == order[0] {
        assert r[0].conn == c;
      } else {
        assert c in order[1..];
        var i :| 0 <= i < |rest| && rest[i].GattcWrite? && rest[i].conn == c;
        assert r[|head| + i].conn == c;
      }
    }
  }

  /** Connections of `order` with a known write handle. */
  ghost function Targets(order: seq<int>, handle: int -> Option<int>): set<int>
  {
    set c | c in order && handle(c).Some?
  }

  /** Exactly one write per target: as many writes as targets, and the
      written connections are exactly the targets. */
  lemma {:induction false} WriteEachOncePerTarget(order: seq<int>, handle: int -> Option<int>, msg: Payload)
    requires forall i, j :: 0 <= i < j < |order| ==> order[i] != order[j]
    ensures |WriteEach(order, handle, msg)| == |Targets(order, handle)|
    ensures forall c :: c in Targets(order, handle) <==>
              exists i :: 0 <= i < |WriteEach(order, handle, msg)| && WriteEach(order, handle, msg)[i].conn == c
  {
    var r := WriteEach(order, handle, msg);
    var written := set i | 0 <= i < |r| :: r[i].conn;
    assert written == Targets(order, handle) by {
      forall c | c in Targets(order, handle) ensures c in written {
        var i :| 0 <= i < |r| && r[i].conn == c;
      }
    }
    DistinctConnCard(r);
  }

  /** Writes to pairwise-distinct connections name as many connections as
      there are writes. */
  lemma {:induction false} DistinctConnCard(r: seq<Call>)
    requires forall i :: 0 <= i < |r| ==> r[i].GattcWrite?
    requires forall i, j :: 0 <= i < j < |r| ==> r[i].conn != r[j].conn
    ensures |set i | 0 <= i < |r| :: r[i].conn| == |r|
    decreases |r|
  {
    if r != [] {
      var tail := r[1..];
      DistinctConnCard(tail);
      var s := set i | 0 <= i < |r| :: r[i].conn;
      var t := set i | 0 <= i < |tail| :: tail[i].conn;
      assert s == {r[0].conn} + t by {
        forall c | c in s ensures c in {r[0].conn} + t {
          var i :| 0 <= i < |r| && r[i].conn == c;
          if i > 0 { assert tail[i - 1].conn == c; }
        }
        forall c | c in t ensures c in s {
          var i :| 0 <= i < |tail| && tail[i].conn == c;
          assert r[i + 1].conn == c;
        }
      }
      assert r[0].conn !in t;
    }
  }
}

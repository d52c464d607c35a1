/** The peripheral-role helper `BleVoteController` of
    src/controller/ble_vote_controller.py: the set of connected centrals,
    (re)advertising, command writes forwarded to the application, and
    notifications to every connected central. */
module Peripheral {
  import opened Common
  import opened Ble
  import Advertising
  import Text

  /** The advertising interval `_advertise` uses when none is given. */
  const DEFAULT_ADV_INTERVAL_US: int := 500000
  /** `BLE_HS_EALREADY`, the one start-advertising error that is ignored. */
  const EALREADY: int := -30

  /** The value handles `gatts_register_services` returned, the connected
      centrals, whether an `on_rx` callback is registered, and the
      advertising payload built once at construction. */
  datatype Controller = Controller(
    txHandle: int,
    rxHandle: int,
    conns: set<int>,
    hasOnRx: bool,
    advPayload: bytes)

  /** Radio-stack and application calls the controller makes. */
  datatype Act =
    | StopAdvertising
    | StartAdvertising(intervalUs: int, payload: bytes)
    | GattsNotify(conn: int, handle: int, msg: Payload)
    | DeliverRx(raw: Payload)

  datatype Event =
    | CentralConnect(conn: int)
    | CentralDisconnect(conn: int)
    | GattsWrite(conn: int, attrHandle: int)
    | OtherEvent(code: int)

  datatype Step = Step(c: Controller, acts: seq<Act>)

  /** What `_advertise` did: the two `gap_advertise` calls it always issues,
      and the start error it re-raised, if any. */
  datatype Started = Started(acts: seq<Act>, raised: Option<int>)

  /** What `_irq` did: the controller after the event, the calls issued,
      and the error that escaped, if any. The controller is kept on the
      error path too, since the handler changes it in place before
      anything can raise. */
  datatype Handled = Handled(c: Controller, acts: seq<Act>, raised: Option<int>)

  /** The constructor: no connections, the payload advertising the UTF-8
      encoding of `name` and the vote service, and a first advertisement
      at `intervalUs`.
      `startErr` is the error the stack reports for the start request; the
      construction fails exactly when `_advertise` re-raises it. */
  function Init(txHandle: int, rxHandle: int, name: string, svcUuid: bytes, hasOnRx: bool,
                intervalUs: int, startErr: Option<int>): (r: Result<Step, int>)
    ensures r.Ok? <==> startErr.None? || startErr.value == EALREADY
    ensures r.Err? ==> r.error == startErr.value
    ensures r.Ok? ==>
              var p := Advertising.AdvPayload(Text.Utf8Encode(name), [svcUuid]);
              r.value.c == Controller(txHandle, rxHandle, {}, hasOnRx, p)
              && r.value.acts == [StopAdvertising, StartAdvertising(intervalUs, p)]
  {
    var c := Controller(txHandle, rxHandle, {}, hasOnRx, Advertising.AdvPayload(Text.Utf8Encode(name), [svcUuid]));
    var s := Advertise(c, intervalUs, startErr);
    if s.raised.Some? then Err(s.raised.value) else Ok(Step(c, s.acts))
  }

  /** `_advertise`: stop any running advertisement (its error is always
      ignored), then start again; a start error other than `EALREADY`
      propagates. Both requests reach the stack either way. */
  function Advertise(c: Controller, intervalUs: int, startErr: Option<int>): (r: Started)
    ensures r.acts == [StopAdvertising, StartAdvertising(intervalUs, c.advPayload)]
    ensures r.raised.None? <==> startErr.None? || startErr.value == EALREADY
    ensures r.raised.Some? ==> r.raised == startErr && r.raised.value != EALREADY
  {
    var acts := [StopAdvertising, StartAdvertising(intervalUs, c.advPayload)];
    if startErr.Some? && startErr.value != EALREADY then Started(acts, startErr)
    else Started(acts, None)
  }

  /** `_irq`. `stored` is what `gatts_read(rx_handle)` returns and
      `startErr` what the stack answers to a restart of advertising.
      A connect records the central; a disconnect forgets it and restarts
      advertising at the default interval (not the one given at
      construction), and the central stays forgotten when that restart
      raises; a write to the command characteristic hands the stored value
      to `on_rx`. */
  function Irq(c: Controller, e: Event, stored: Payload, startErr: Option<int>): (r: Handled)
    ensures r.raised.Some? <==> e.CentralDisconnect? && startErr.Some? && startErr.value != EALREADY
    ensures r.raised.Some? ==> r.raised == startErr
    ensures r.c.txHandle == c.txHandle && r.c.rxHandle == c.rxHandle
            && r.c.hasOnRx == c.hasOnRx && r.c.advPayload == c.advPayload
    ensures e.CentralConnect? ==> r.c.conns == c.conns + {e.conn} && r.acts == []
    ensures e.CentralDisconnect? ==>
              r.c.conns == c.conns - {e.conn}
              && r.acts == [StopAdvertising, StartAdvertising(DEFAULT_ADV_INTERVAL_US, c.advPayload)]
    ensures e.GattsWrite? ==>
              r.c == c
              && (r.acts != [] <==> e.attrHandle == c.rxHandle && c.hasOnRx)
              && (r.acts != [] ==> r.acts == [DeliverRx(stored)])
    ensures e.OtherEvent? ==> r == Handled(c, [], None)
  {
    match e
    case CentralConnect(conn) => Handled(c.(conns := c.conns + {conn}), [], None)
    case CentralDisconnect(conn) =>
      var c' := c.(conns := c.conns - {conn});
      var s := Advertise(c', DEFAULT_ADV_INTERVAL_US, startErr);
      Handled(c', s.acts, s.raised)
    case GattsWrite(_, attr) =>
      if attr == c.rxHandle && c.hasOnRx then Handled(c, [DeliverRx(stored)], None) else Handled(c, [], None)
    case OtherEvent(_) => Handled(c, [], None)
  }

  /** `send`: one notification to every connected central, in the order of
      `order` (a snapshot of the connection set); a central whose
      notification fails (`failing`) is dropped from the set. */
  method Send(c: Controller, order: seq<int>, failing: set<int>, msg: Payload) returns (r: Step)
    requires forall i, j :: 0 <= i < j < |order| ==> order[i] != order[j]
    requires forall x :: x in order <==> x in c.conns
    ensures r.c == c.(conns := c.conns - failing)
    ensures |r.acts| == |order| == |c.conns|
    ensures forall i :: 0 <= i < |order| ==> r.acts[i] == GattsNotify(order[i], c.txHandle, msg)
  {
    var conns := c.conns;
    var acts: seq<Act> := [];
    ghost var seen: set<int> := {};
    var i := 0;
    while i < |order|
      invariant 0 <= i <= |order|
      invariant |acts| == i
      invariant forall k :: 0 <= k < i ==> acts[k] == GattsNotify(order[k], c.txHandle, msg)
      invariant forall x :: x in seen <==> x in order[..i]
      invariant conns == c.conns - (failing * seen)
    {
      acts := acts + [GattsNotify(order[i], c.txHandle, msg)];
      if order[i] in failing {
        conns := conns - {order[i]};
      }
      seen := seen + {order[i]};
      assert order[..i + 1] == order[..i] + [order[i]];
      i := i + 1;
    }
    SendCovers(c, order, failing, seen);
    r := Step(c.(conns := conns), acts);
  }

  /** Once the loop has seen all of `order`, it has seen every connection,
      one per notification. */
  lemma SendCovers(c: Controller, order: seq<int>, failing: set<int>, seen: set<int>)
    requires forall i, j :: 0 <= i < j < |order| ==> order[i] != order[j]
    requires forall x :: x in order <==> x in c.conns
    requires forall x :: x in seen <==> x in order[..|order|]
    ensures c.conns - (failing * seen) == c.conns - failing
    ensures |order| == |c.conns|
  {
    assert order[..|order|] == order;
    DistinctCard(order, c.conns);
  }

  /** A duplicate-free sequence listing exactly the members of a set is as
      long as the set is large. */
  lemma {:induction false} DistinctCard(s: seq<int>, xs: set<int>)
    requires forall i, j :: 0 <= i < j < |s| ==> s[i] != s[j]
    requires forall x :: x in s <==> x in xs
    ensures |xs| == |s|
    decreases |s|
  {
    if s != [] {
      var t := s[1..];
      forall x ensures x in t <==> x in xs - {s[0]} {
        if x in t {
          var k :| 0 <= k < |t| && t[k] == x;
          assert s[k + 1] == x && s[0] != s[k + 1];
        }
        if x in xs && x != s[0] {
          var k :| 0 <= k < |s| && s[k] == x;
          assert t[k - 1] == x;
        }
      }
      DistinctCard(t, xs - {s[0]});
      assert s[0] in xs;
      assert |xs - {s[0]}| == |xs| - 1;
    } else {
      assert forall x :: x !in xs;
      assert xs == {};
    }
  }

  /** Connection handles never enter the set except through a connect
      event: every event, whether or not its handler raises, keeps the set
      within the old set plus that event's own handle. */
  lemma ConnsOnlyFromConnect(c: Controller, e: Event, stored: Payload, startErr: Option<int>)
    ensures Irq(c, e, stored, startErr).c.conns <= c.conns + (if e.CentralConnect? then {e.conn} else {})
    ensures e.CentralDisconnect? ==> e.conn !in Irq(c, e, stored, startErr).c.conns
  {
  }
}

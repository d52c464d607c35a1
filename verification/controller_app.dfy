/** The vote controller's application loop, src/controller/main.py: the
    command dispatcher that drives the six indicator LEDs and the two
    button LEDs, the debounced button interrupts, the deferred vote send,
    and the `on_rx` callback that queues received payloads. */
module ControllerApp {
  import opened Common
  import opened Ble
  import opened RingQueue
  import Debounce
  import Peripheral

  /** Mechanical bounce time of the vote buttons, in milliseconds. */
  const DEBOUNCE_MS: int := 40

  /** Slots of the command queue built at start-up. */
  const QUEUE_SIZE: int := 16

  /** Lit state of the LEDs: three on the left (NO side), three on the
      right (YES side), and the red and green button LEDs. `true` is lit,
      whatever the pin's polarity. */
  datatype Leds = Leds(left: seq<bool>, right: seq<bool>, redBtn: bool, greenBtn: bool)

  predicate Wired(l: Leds)
  {
    |l.left| == 3 && |l.right| == 3
  }

  const DARK: seq<bool> := [false, false, false]

  /** Start-up: every left and right LED is turned off; the button LEDs keep
      whatever level their pins came up with. */
  function Boot(red: bool, green: bool): (l: Leds)
    ensures Wired(l) && l.redBtn == red && l.greenBtn == green
    ensures forall i :: 0 <= i < 3 ==> !l.left[i] && !l.right[i]
  {
    Leds(DARK, DARK, red, green)
  }

  /** One pass of `consume_queue`: the LED writes for one received payload,
      in the order the source makes them. A vote or any other payload
      matches no branch and changes nothing. */
  function Consume(l: Leds, p: Payload): (r: Leds)
    requires Wired(l)
    ensures Wired(r)
    ensures p == Cmd(Start) ==> r == l.(redBtn := true, greenBtn := true)
    ensures p == Cmd(Stop) ==> r == l.(redBtn := false, greenBtn := false)
    ensures p == Cmd(IndicateYes) ==> r == l.(right := [false, true, false])
    ensures p == Cmd(IndicateNo) ==> r == l.(left := [true, false, false])
    ensures p == Cmd(IndicateNone) ==> r == l.(left := DARK, right := DARK)
    ensures !p.Cmd? ==> r == l
  {
    match p
    case Cmd(Start) => l.(redBtn := true).(greenBtn := true)
    case Cmd(Stop) => l.(redBtn := false).(greenBtn := false)
    case Cmd(IndicateYes) => l.(right := l.right[0 := false][1 := true][2 := false])
    case Cmd(IndicateNo) => l.(left := l.left[0 := true][1 := false][2 := false])
    case Cmd(IndicateNone) =>
      l.(left := l.left[0 := false][1 := false][2 := false])
       .(right := l.right[0 := false][1 := false][2 := false])
    case _ => l
  }

  /** Every command sets LEDs to fixed levels, so repeating it changes
      nothing. */
  lemma ConsumeIdempotent(l: Leds, p: Payload)
    requires Wired(l)
    ensures Consume(Consume(l, p), p) == Consume(l, p)
  {
  }

  /** The two indications touch disjoint LEDs, so their order does not
      matter; neither touches the button LEDs. */
  lemma IndicationsCommute(l: Leds)
    requires Wired(l)
    ensures Consume(Consume(l, Cmd(IndicateYes)), Cmd(IndicateNo))
            == Consume(Consume(l, Cmd(IndicateNo)), Cmd(IndicateYes))
  {
  }

  /** Only START and STOP move the button LEDs, and they move nothing else. */
  lemma ButtonsOnlyFromStartStop(l: Leds, p: Payload)
    requires Wired(l)
    ensures p != Cmd(Start) && p != Cmd(Stop) ==>
              Consume(l, p).redBtn == l.redBtn && Consume(l, p).greenBtn == l.greenBtn
    ensures p == Cmd(Start) || p == Cmd(Stop) ==>
              Consume(l, p).left == l.left && Consume(l, p).right == l.right
  {
  }

  /** The indicator LEDs show one of the dispatcher's patterns: the left
      side dark or showing NO, the right side dark or showing YES. */
  predicate Indicating(l: Leds)
  {
    (l.left == DARK || l.left == [true, false, false])
    && (l.right == DARK || l.right == [false, true, false])
  }

  /** The LED state after a run of payloads. */
  function ConsumeAll(l: Leds, ps: seq<Payload>): (r: Leds)
    requires Wired(l)
    ensures Wired(r)
    decreases |ps|
  {
    if ps == [] then l else ConsumeAll(Consume(l, ps[0]), ps[1..])
  }

  /** From start-up on, whatever the controller receives, the indicator
      LEDs only ever show a dispatcher pattern. */
  lemma {:induction false} AlwaysIndicating(l: Leds, ps: seq<Payload>)
    requires Wired(l) && Indicating(l)
    ensures Indicating(ConsumeAll(l, ps))
    decreases |ps|
  {
    if ps != [] {
      ConsumeKeepsIndicating(l, ps[0]);
      AlwaysIndicating(Consume(l, ps[0]), ps[1..]);
    }
  }

  /** One payload keeps the indicator LEDs in a dispatcher pattern. */
  lemma ConsumeKeepsIndicating(l: Leds, p: Payload)
    requires Wired(l) && Indicating(l)
    ensures Indicating(Consume(l, p))
  {
  }

  /** The state at start-up is a dispatcher pattern. */
  lemma BootIndicating(red: bool, green: bool)
    ensures Indicating(Boot(red, green))
  {
  }

  /** After an INDICATE_NONE with no later indication, all six indicator
      LEDs are dark. */
  lemma {:induction false} NoneClears(l: Leds, ps: seq<Payload>, k: int)
    requires Wired(l) && 0 <= k < |ps| && ps[k] == Cmd(IndicateNone)
    requires forall j :: k < j < |ps| ==> ps[j] != Cmd(IndicateYes) && ps[j] != Cmd(IndicateNo)
    ensures ConsumeAll(l, ps).left == DARK && ConsumeAll(l, ps).right == DARK
    decreases |ps|
  {
    if k > 0 {
      assert forall j :: k - 1 < j < |ps[1..]| ==> ps[1..][j] == ps[j + 1];
      NoneClears(Consume(l, ps[0]), ps[1..], k - 1);
    } else {
      DarkStays(Consume(l, ps[0]), ps[1..]);
    }
  }

  /** Dark indicator LEDs stay dark while no indication arrives. */
  lemma {:induction false} DarkStays(l: Leds, ps: seq<Payload>)
    requires Wired(l) && l.left == DARK && l.right == DARK
    requires forall j :: 0 <= j < |ps| ==> ps[j] != Cmd(IndicateYes) && ps[j] != Cmd(IndicateNo)
    ensures ConsumeAll(l, ps).left == DARK && ConsumeAll(l, ps).right == DARK
    decreases |ps|
  {
    if ps != [] {
      assert forall j :: 0 <= j < |ps[1..]| ==> ps[1..][j] == ps[j + 1];
      DarkStays(Consume(l, ps[0]), ps[1..]);
    }
  }

  // ---------------------------------------------------------------------
  //  Buttons and sending
  // ---------------------------------------------------------------------

  /** `_make_button_irq`'s handler for the button bound to `vote`: the
      handler state after an edge at `now`, and the vote scheduled for
      sending, if any. */
  function ButtonIrq(last: int, now: int, vote: VoteInfo): (r: (int, Option<VoteInfo>))
    ensures r.1.Some? <==> now - last >= DEBOUNCE_MS
    ensures r.1.Some? ==> r.1.value == vote && r.0 == now
    ensures r.1.None? ==> r.0 == last
  {
    var e := Debounce.OnEdge(last, now, DEBOUNCE_MS);
    (e.last, if e.scheduled then Some(vote) else None)
  }

  /** The red button votes NO and the green one YES. */
  function ButtonVote(green: bool): (v: VoteInfo)
    ensures v == Yes <==> green
  {
    if green then Yes else No
  }

  /** `_scheduled_send`: with a controller, notify every connected central
      of the vote (dropping those whose notification fails); in any case
      turn both button LEDs off. */
  method ScheduledSend(voter: Option<Peripheral.Controller>, order: seq<int>, failing: set<int>, vote: VoteInfo, l: Leds)
    returns (voter': Option<Peripheral.Controller>, acts: seq<Peripheral.Act>, l': Leds)
    requires voter.Some? ==> (forall i, j :: 0 <= i < j < |order| ==> order[i] != order[j])
                             && (forall x :: x in order <==> x in voter.value.conns)
    ensures l' == l.(redBtn := false, greenBtn := false)
    ensures voter.None? ==> voter' == None && acts == []
    ensures voter.Some? ==> voter' == Some(voter.value.(conns := voter.value.conns - failing))
    ensures voter.Some? ==> |acts| == |order|
                            && forall i :: 0 <= i < |order| ==>
                                 acts[i] == Peripheral.GattsNotify(order[i], voter.value.txHandle, Vote(vote))
  {
    voter', acts := voter, [];
    if voter.Some? {
      var st := Peripheral.Send(voter.value, order, failing, Vote(vote));
      voter', acts := Some(st.c), st.acts;
    }
    l' := l.(redBtn := false).(greenBtn := false);
  }

  // ---------------------------------------------------------------------
  //  Receiving
  // ---------------------------------------------------------------------

  /** The command queue as `ThreadSafeQueue(16)` builds it; the filler in
      the unused slots is never read. */
  function NewQueue(): (q: Queue<Payload>)
    ensures Valid(q) && IsEmpty(q) && Contents(q) == [] && |q.buf| == QUEUE_SIZE
  {
    FromList(seq(QUEUE_SIZE, _ => Raw([])))
  }

  /** The `on_rx` callback: `put_sync` the payload without blocking;
      `raised` when the queue was full. */
  function OnRx(q: Queue<Payload>, p: Payload): (r: (Queue<Payload>, bool))
    requires Valid(q)
    ensures Valid(r.0) && (r.1 <==> IsFull(q))
    ensures !r.1 ==> Contents(r.0) == Contents(q) + [p]
    ensures r.1 ==> Contents(r.0) == Contents(q)
  {
    match PutSync(q, p)
    case Stored(q') => (q', false)
    case Overflow(q') => (q', true)
  }

  /** Payloads received into a fresh queue come out in arrival order, and
      up to fifteen fit. */
  lemma {:induction false} ReceivedInOrder(ps: seq<Payload>)
    requires |ps| < QUEUE_SIZE
    ensures var q := ReceiveAll(NewQueue(), ps); Valid(q) && Contents(q) == ps
  {
    ReceiveAllAppends(NewQueue(), ps);
  }

  /** The queue after `on_rx` for each payload in turn. */
  function ReceiveAll(q: Queue<Payload>, ps: seq<Payload>): (r: Queue<Payload>)
    requires Valid(q)
    ensures Valid(r)
    decreases |ps|
  {
    if ps == [] then q else ReceiveAll(OnRx(q, ps[0]).0, ps[1..])
  }

  /** While there is room, every received payload is appended. */
  lemma {:induction false} ReceiveAllAppends(q: Queue<Payload>, ps: seq<Payload>)
    requires Valid(q) && QSize(q) + |ps| < |q.buf|
    ensures Contents(ReceiveAll(q, ps)) == Contents(q) + ps
    decreases |ps|
  {
    if ps != [] {
      EmptyFullIffQSize(q);
      var q' := OnRx(q, ps[0]).0;
      assert |q'.buf| == |q.buf| && QSize(q') == QSize(q) + 1 by {
        assert PutSync(q, ps[0]).Stored?;
      }
      ReceiveAllAppends(q', ps[1..]);
      assert Contents(q) + [ps[0]] + ps[1..] == Contents(q) + ps;
    }
  }
}

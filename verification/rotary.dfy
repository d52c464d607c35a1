/** The quadrature decoder of src/central/encoder/rotary.py: a state
    machine over the two encoder pins, the value it drives in one of three
    range modes, and the change listeners. Listeners are identified by a
    plain `int`; what they do is not modelled. */
module Rotary {
  import opened Common

  const DIR_CW: bv8 := 0x10
  const DIR_CCW: bv8 := 0x20

  const R_START: bv8 := 0x0
  const R_CW_1: bv8 := 0x1
  const R_CW_2: bv8 := 0x2
  const R_CW_3: bv8 := 0x3
  const R_CCW_1: bv8 := 0x4
  const R_CCW_2: bv8 := 0x5
  const R_CCW_3: bv8 := 0x6
  const R_ILLEGAL: bv8 := 0x7

  const STATE_MASK: bv8 := 0x07
  const DIR_MASK: bv8 := 0x30

  /** Next state by current state (row) and pin pair CLK·DT (column), full
      steps: a direction bit is emitted on the return to rest. */
  const FULL_STEP: seq<seq<bv8>> := [
    [R_START, R_CCW_1, R_CW_1, R_START],
    [R_CW_2, R_START, R_CW_1, R_START],
    [R_CW_2, R_CW_3, R_CW_1, R_START],
    [R_CW_2, R_CW_3, R_START, R_START | DIR_CW],
    [R_CCW_2, R_CCW_1, R_START, R_START],
    [R_CCW_2, R_CCW_1, R_CCW_3, R_START],
    [R_CCW_2, R_START, R_CCW_3, R_START | DIR_CCW],
    [R_START, R_START, R_START, R_START]
  ]

  /** The half-step table, as given; its rows reuse the state names. */
  const HALF_STEP: seq<seq<bv8>> := [
    [R_CW_3, R_CW_2, R_CW_1, R_START],
    [R_CW_3 | DIR_CCW, R_START, R_CW_1, R_START],
    [R_CW_3 | DIR_CW, R_CW_2, R_START, R_START],
    [R_CW_3, R_CCW_2, R_CCW_1, R_START],
    [R_CW_3, R_CW_2, R_CCW_1, R_START | DIR_CW],
    [R_CW_3, R_CCW_2, R_CW_3, R_START | DIR_CCW],
    [R_START, R_START, R_START, R_START],
    [R_START, R_START, R_START, R_START]
  ]

  const RANGE_UNBOUNDED: int := 1
  const RANGE_WRAP: int := 2
  const RANGE_BOUNDED: int := 3

  /** Both tables are 8 × 4. */
  predicate WellShaped(t: seq<seq<bv8>>)
  {
    |t| == 8 && forall i :: 0 <= i < 8 ==> |t[i]| == 4
  }

  /** `_wrap`: the value moved by `incr` and folded into
      `[lower, upper]`; `None` where Python raises ZeroDivisionError
      (`upper == lower - 1`). The source's pre-shift of values below
      `lower` does not change the result: it is plain reduction modulo the
      range. */
  function Wrap(value: int, incr: int, lower: int, upper: int): (r: Option<int>)
    ensures r.None? <==> upper - lower + 1 == 0
    ensures r.Some? ==> r.value == lower + FloorMod(value + incr - lower, upper - lower + 1)
    ensures r.Some? && upper >= lower ==> lower <= r.value <= upper
    ensures r.Some? && lower <= value + incr <= upper ==> r.value == value + incr
    ensures r.Some? && upper < lower - 1 ==> upper + 1 < r.value <= lower
  {
    var range := upper - lower + 1;
    var v := value + incr;
    if range == 0 then None
    else
      var v' := if v < lower then v + range * (FloorDiv(lower - v, range) + 1) else v;
      var r := lower + FloorMod(v' - lower, range);
      assert r == lower + FloorMod(v - lower, range) by {
        if v < lower {
          FloorModShift(v - lower, range, FloorDiv(lower - v, range) + 1);
        }
      }
      assert range > 0 && lower <= v <= upper ==> r == v by {
        if range > 0 && lower <= v <= upper {
          ModUnique(v - lower, range, 0, v - lower);
        }
      }
      Some(r)
  }

  /** `_bound`: the value moved by `incr` and clamped to
      `[lower, upper]`; with `upper < lower` the upper bound wins. */
  function Bound(value: int, incr: int, lower: int, upper: int): (r: int)
    ensures lower <= upper ==> lower <= r <= upper
    ensures lower <= value + incr <= upper ==> r == value + incr
    ensures value + incr < lower <= upper ==> r == lower
    ensures value + incr > upper ==> r == upper
    ensures upper < lower ==> r == upper
  {
    var m := if lower > value + incr then lower else value + incr;
    if upper < m then upper else m
  }

  /** The encoder: the configured range and step, the `reverse` factor
      (±1), the value, the decoder state and the listeners. */
  datatype Encoder = Encoder(
    minVal: int,
    maxVal: int,
    incr: int,
    reverse: int,
    rangeMode: int,
    value: int,
    state: bv8,
    halfStep: bool,
    invert: bool,
    listeners: seq<int>)

  function Init(minVal: int, maxVal: int, incr: int, reverse: bool, rangeMode: int,
                halfStep: bool, invert: bool): (e: Encoder)
    ensures e.value == minVal && e.state == R_START && e.listeners == []
    ensures e.reverse == (if reverse then -1 else 1)
    ensures e.minVal == minVal && e.maxVal == maxVal && e.incr == incr && e.rangeMode == rangeMode
    ensures e.halfStep == halfStep && e.invert == invert
  {
    Encoder(minVal, maxVal, incr, if reverse then -1 else 1, rangeMode, minVal, R_START, halfStep, invert, [])
  }

  /** `set`: every given field replaced (`None` keeps the old one), and the
      decoder back at rest. */
  function Set(e: Encoder, value: Option<int>, minVal: Option<int>, incr: Option<int>,
               maxVal: Option<int>, reverse: Option<bool>, rangeMode: Option<int>): (r: Encoder)
    ensures r.state == R_START
    ensures r.value == (if value.Some? then value.value else e.value)
    ensures r.minVal == (if minVal.Some? then minVal.value else e.minVal)
    ensures r.maxVal == (if maxVal.Some? then maxVal.value else e.maxVal)
    ensures r.incr == (if incr.Some? then incr.value else e.incr)
    ensures r.reverse == (if reverse.Some? then (if reverse.value then -1 else 1) else e.reverse)
    ensures r.rangeMode == (if rangeMode.Some? then rangeMode.value else e.rangeMode)
    ensures r.halfStep == e.halfStep && r.invert == e.invert && r.listeners == e.listeners
  {
    e.(value := Pick(value, e.value), minVal := Pick(minVal, e.minVal), maxVal := Pick(maxVal, e.maxVal),
       incr := Pick(incr, e.incr), reverse := if reverse.Some? then (if reverse.value then -1 else 1) else e.reverse,
       rangeMode := Pick(rangeMode, e.rangeMode), state := R_START)
  }

  /** A given argument, or the current value for `None`. */
  function Pick<T>(o: Option<T>, current: T): T
  {
    if o.Some? then o.value else current
  }

  /** `reset`: the value goes to 0 (not to `min_val`); nothing else,
      not even the decoder state, changes. */
  function Reset(e: Encoder): (r: Encoder)
    ensures r.value == 0
    ensures r.(value := e.value) == e
  {
    e.(value := 0)
  }

  function AddListener(e: Encoder, l: int): (r: Encoder)
    ensures r.listeners == e.listeners + [l]
    ensures r.(listeners := e.listeners) == e
  {
    e.(listeners := e.listeners + [l])
  }

  /** `remove_listener`: ValueError for a listener not installed, otherwise
      its first occurrence is removed. */
  function RemoveListener(e: Encoder, l: int): (r: Result<Encoder, string>)
    ensures r.Err? <==> l !in e.listeners
    ensures r.Ok? ==> r.value.(listeners := e.listeners) == e
                      && |r.value.listeners| == |e.listeners| - 1
                      && multiset(r.value.listeners) == multiset(e.listeners) - multiset{l}
  {
    if l !in e.listeners then Err("not an installed listener")
    else Ok(e.(listeners := RemoveFirst(e.listeners, l)))
  }

  /** Removing a listener just added restores the list when it was not
      installed before. */
  lemma AddRemoveListener(e: Encoder, l: int)
    requires l !in e.listeners
    ensures RemoveListener(AddListener(e, l), l) == Ok(e)
  {
    var s := e.listeners + [l];
    var i :| 0 <= i < |s| && s[i] == l && l !in s[..i] && RemoveFirst(s, l) == s[..i] + s[i + 1..];
    assert i == |e.listeners|;
    assert s[..i] == e.listeners && s[i + 1..] == [];
    assert RemoveFirst(s, l) == e.listeners;
    assert AddListener(e, l).(listeners := e.listeners) == e;
  }

  /** The pin pair CLK·DT, inverted when the encoder is wired active-low;
      Python's `~p & 3`, written with its two's-complement meaning. */
  function Pins(clk: int, dt: int, invert: bool): (p: int)
    requires 0 <= clk <= 1 && 0 <= dt <= 1
    ensures 0 <= p < 4
    ensures !invert ==> p == 2 * clk + dt
    ensures invert ==> p == 2 * (1 - clk) + (1 - dt)
  {
    var raw := 2 * clk + dt;
    if invert then FloorMod(-raw - 1, 4) else raw
  }

  /** The state table lookup of `_process_rotary_pins`. */
  function NextState(state: bv8, pins: int, halfStep: bool): bv8
    requires 0 <= pins < 4
  {
    var row := (state & STATE_MASK) as int;
    if halfStep then HALF_STEP[row][pins] else FULL_STEP[row][pins]
  }

  /** The signed step the new state asks for. */
  function StepIncrement(e: Encoder, state: bv8): (d: int)
    ensures state & DIR_MASK == DIR_CW ==> d == e.incr * e.reverse
    ensures state & DIR_MASK == DIR_CCW ==> d == -e.incr * e.reverse
    ensures state & DIR_MASK != DIR_CW && state & DIR_MASK != DIR_CCW ==> d == 0
  {
    var dir := state & DIR_MASK;
    var incr := if dir == DIR_CW then e.incr else if dir == DIR_CCW then -e.incr else 0;
    incr * e.reverse
  }

  /** The result of one pin interrupt: the new encoder, the listeners
      called in order, and whether `_wrap` raised (after the state update
      and before the value update). */
  datatype Outcome = Outcome(e: Encoder, called: seq<int>, raised: bool)

  /** `_process_rotary_pins`. `failAt` is the index of the first listener
      that raises, if any: the remaining ones are skipped and the exception
      swallowed. */
  function Process(e: Encoder, clk: int, dt: int, failAt: Option<nat>): (o: Outcome)
    requires 0 <= clk <= 1 && 0 <= dt <= 1
    ensures o.e.state == NextState(e.state, Pins(clk, dt, e.invert), e.halfStep)
    ensures o.e.(state := e.state, value := e.value) == e
    ensures o.raised <==> e.rangeMode == RANGE_WRAP && e.maxVal - e.minVal + 1 == 0
    ensures o.raised ==> o.e.value == e.value && o.called == []
    ensures !o.raised ==>
              var d := StepIncrement(e, o.e.state);
              (e.rangeMode == RANGE_WRAP ==> Some(o.e.value) == Wrap(e.value, d, e.minVal, e.maxVal))
              && (e.rangeMode == RANGE_BOUNDED ==> o.e.value == Bound(e.value, d, e.minVal, e.maxVal))
              && (e.rangeMode != RANGE_WRAP && e.rangeMode != RANGE_BOUNDED ==> o.e.value == e.value + d)
    ensures o.called != [] <==> !o.raised && o.e.value != e.value && e.listeners != []
    ensures o.called != [] ==>
              o.called == (if failAt.Some? && failAt.value < |e.listeners| then e.listeners[..failAt.value + 1] else e.listeners)
  {
    var state := NextState(e.state, Pins(clk, dt, e.invert), e.halfStep);
    var d := StepIncrement(e, state);
    var e1 := e.(state := state);
    match MovedValue(e, d)
    case None => Outcome(e1, [], true)
    case Some(v) => Outcome(e1.(value := v), Notified(e.listeners, v != e.value, failAt), false)
  }

  /** The value after a step of `d` in the encoder's range mode; `None`
      where `_wrap` raises. */
  function MovedValue(e: Encoder, d: int): (r: Option<int>)
    ensures r.None? <==> e.rangeMode == RANGE_WRAP && e.maxVal - e.minVal + 1 == 0
    ensures r.Some? && e.rangeMode == RANGE_WRAP ==> r == Wrap(e.value, d, e.minVal, e.maxVal)
    ensures r.Some? && e.rangeMode == RANGE_BOUNDED ==> r.value == Bound(e.value, d, e.minVal, e.maxVal)
    ensures e.rangeMode != RANGE_WRAP && e.rangeMode != RANGE_BOUNDED ==> r == Some(e.value + d)
  {
    if e.rangeMode == RANGE_WRAP then Wrap(e.value, d, e.minVal, e.maxVal)
    else if e.rangeMode == RANGE_BOUNDED then Some(Bound(e.value, d, e.minVal, e.maxVal))
    else Some(e.value + d)
  }

  /** The listeners called after a value change: all of them in order, or
      up to and including the first that raises. */
  function Notified(listeners: seq<int>, changed: bool, failAt: Option<nat>): (c: seq<int>)
    ensures c != [] <==> changed && listeners != []
    ensures c != [] ==> c == (if failAt.Some? && failAt.value < |listeners| then listeners[..failAt.value + 1] else listeners)
  {
    if changed && |listeners| != 0 then
      (if failAt.Some? && failAt.value < |listeners| then listeners[..failAt.value + 1] else listeners)
    else []
  }

  // ---------------------------------------------------------------------
  //  Decoder properties
  // ---------------------------------------------------------------------

  /** Every table entry keeps its state bits in 0..6 (the illegal state is
      never entered) and carries at most one direction bit. In the
      full-step table a direction bit only comes with the rest state; the
      half-step table also reports one on entering its mid-detent state
      (`R_CW_3` reused as the half-way rest). */
  lemma TablesWellFormed()
    ensures WellShaped(FULL_STEP) && WellShaped(HALF_STEP)
    ensures forall i, j :: 0 <= i < 8 && 0 <= j < 4 ==>
              FULL_STEP[i][j] & STATE_MASK != R_ILLEGAL
              && FULL_STEP[i][j] & DIR_MASK in {0, DIR_CW, DIR_CCW}
              && (FULL_STEP[i][j] & DIR_MASK != 0 ==> FULL_STEP[i][j] & STATE_MASK == R_START)
    ensures forall i, j :: 0 <= i < 8 && 0 <= j < 4 ==>
              HALF_STEP[i][j] & STATE_MASK != R_ILLEGAL
              && HALF_STEP[i][j] & DIR_MASK in {0, DIR_CW, DIR_CCW}
              && (HALF_STEP[i][j] & DIR_MASK != 0 ==> HALF_STEP[i][j] & STATE_MASK in {R_START, R_CW_3})
    ensures forall j :: 0 <= j < 4 ==> FULL_STEP[7][j] == R_START && HALF_STEP[7][j] == R_START
  {
  }

  /** Full steps count only at the detent: a direction bit is produced
      only when both pins read high. */
  lemma {:induction false} FullStepCountsAtDetent(state: bv8, pins: int)
    requires 0 <= pins < 4
    requires NextState(state, pins, false) & DIR_MASK != 0
    ensures pins == 3
  {
    var row := (state & STATE_MASK) as int;
    assert 0 <= row < 8 by {
      MaskBound(state);
    }
    assert FULL_STEP[row][pins] & DIR_MASK != 0;
  }

  lemma MaskBound(s: bv8)
    ensures (s & STATE_MASK) as int < 8
  {
  }

  /** Feeds a sequence of pin pairs through `process`, one at a time, with
      the encoder's own settings. */
  function Feed(e: Encoder, pins: seq<(int, int)>): Encoder
    requires forall k :: 0 <= k < |pins| ==> 0 <= pins[k].0 <= 1 && 0 <= pins[k].1 <= 1
    decreases |pins|
  {
    if pins == [] then e else Feed(Process(e, pins[0].0, pins[0].1, None).e, pins[1..])
  }

  /** The pin pairs of one clockwise detent from rest (CLK leads: 10, 00,
      01, 11) and of one counter-clockwise detent (01, 00, 10, 11). */
  const CW_DETENT: seq<(int, int)> := [(1, 0), (0, 0), (0, 1), (1, 1)]
  const CCW_DETENT: seq<(int, int)> := [(0, 1), (0, 0), (1, 0), (1, 1)]

  /** One clockwise detent from rest adds one step and returns to rest,
      for an encoder with no inversion, full steps and no range limit. */
  lemma {:induction false} ClockwiseDetent(e: Encoder)
    requires e.state == R_START && !e.halfStep && !e.invert && e.rangeMode == RANGE_UNBOUNDED
    ensures Feed(e, CW_DETENT).value == e.value + e.incr * e.reverse
    ensures Feed(e, CW_DETENT).state & STATE_MASK == R_START
  {
    var cw := CW_DETENT;
    var e1 := Process(e, 1, 0, None).e;
    assert e1.state == R_CW_1 && e1.value == e.value;
    var e2 := Process(e1, 0, 0, None).e;
    assert e2.state == R_CW_2 && e2.value == e.value;
    var e3 := Process(e2, 0, 1, None).e;
    assert e3.state == R_CW_3 && e3.value == e.value;
    var e4 := Process(e3, 1, 1, None).e;
    assert e4.state == R_START | DIR_CW;
    assert |cw[1..][1..][1..][1..]| == 0;
    assert Feed(e, cw) == e4;
  }

  /** One counter-clockwise detent from rest takes one step off and
      returns to rest, for an encoder with no inversion, full steps and no
      range limit. */
  lemma {:induction false} CounterClockwiseDetent(e: Encoder)
    requires e.state == R_START && !e.halfStep && !e.invert && e.rangeMode == RANGE_UNBOUNDED
    ensures Feed(e, CCW_DETENT).value == e.value - e.incr * e.reverse
    ensures Feed(e, CCW_DETENT).state & STATE_MASK == R_START
  {
    var ccw := CCW_DETENT;
    var f1 := Process(e, 0, 1, None).e;
    assert f1.state == R_CCW_1 && f1.value == e.value;
    var f2 := Process(f1, 0, 0, None).e;
    assert f2.state == R_CCW_2 && f2.value == e.value;
    var f3 := Process(f2, 1, 0, None).e;
    assert f3.state == R_CCW_3 && f3.value == e.value;
    var f4 := Process(f3, 1, 1, None).e;
    assert f4.state == R_START | DIR_CCW;
    assert |ccw[1..][1..][1..][1..]| == 0;
    assert Feed(e, ccw) == f4;
  }

  /** In wrap mode with a proper range the value never leaves it. */
  lemma WrapStaysInRange(e: Encoder, clk: int, dt: int)
    requires 0 <= clk <= 1 && 0 <= dt <= 1
    requires e.rangeMode == RANGE_WRAP && e.minVal <= e.maxVal
    ensures e.minVal <= Process(e, clk, dt, None).e.value <= e.maxVal
  {
  }

  /** In bounded mode with a proper range the value never leaves it. */
  lemma BoundStaysInRange(e: Encoder, clk: int, dt: int)
    requires 0 <= clk <= 1 && 0 <= dt <= 1
    requires e.rangeMode == RANGE_BOUNDED && e.minVal <= e.maxVal
    ensures e.minVal <= Process(e, clk, dt, None).e.value <= e.maxVal
  {
  }
}

/** The central board's application loop, src/central/main.py: the same
    round state as `VoteSession` kept in module globals, the queue of
    received votes filled by the manager's `on_rx` callback and drained by
    `consume_queue`, the encoder handler and the global-state versions of
    start, end, reset and the timer tick. The global `manager` is an
    optional manager state passed to every step. */
module CentralApp {
  import opened Common
  import opened Ble
  import opened RingQueue
  import opened UiCore
  import CentralManager
  import VoteSession

  type Session = VoteSession.Session
  type Out = VoteSession.Out
  type Item = (int, Payload)

  /** `start_tutorial`: with a manager, stop scanning and arm the tutorial
      timer; without one, nothing. */
  function StartTutorial(s: Session, mgr: Option<CentralManager.Manager>): (o: Out)
    ensures mgr.None? ==> o == VoteSession.Out(s, [])
    ensures mgr.Some? ==> o == VoteSession.Spawn(s)
  {
    if mgr.None? then VoteSession.Out(s, [])
    else VoteSession.Out(s.(tutorialTimer := true), [VoteSession.StopScanning])
  }

  /** `start_vote`: only with a manager and an armed tutorial timer, which
      it disarms; it does not look at the voting timer. */
  function StartVote(s: Session, mgr: Option<CentralManager.Manager>, order: seq<int>, minutes: int, seconds: int): (o: Out)
    requires VoteSession.Distinct(order)
    ensures mgr.None? || !s.tutorialTimer ==> o == VoteSession.Out(s, [])
    ensures mgr.Some? && s.tutorialTimer ==>
              !o.s.tutorialTimer && o.s.voting && o.s.votingTimer && VoteSession.Opened(o.s, minutes, seconds)
              && o.s.record == s.record && o.s.resultsLines == s.resultsLines
              && o.s.reporting == s.reporting && o.s.timing == s.timing
              && o.effects == [VoteSession.Radio(CentralManager.Broadcast(mgr.value, order, Cmd(Ble.Start)))]
  {
    if mgr.None? || !s.tutorialTimer then VoteSession.Out(s, [])
    else
      var t := VoteSession.InitialTime(s.timing, minutes, seconds);
      VoteSession.Out(
        s.(tutorialTimer := false, voting := true, timeLeft := t,
           screenLines := [VoteSession.FirstLine(s.timing, t)], votingTimer := true),
        [VoteSession.Radio(CentralManager.Broadcast(mgr.value, order, Cmd(Ble.Start)))])
  }

  /** With the voting timer stopped, starting here is the session's
      `start` after disarming the tutorial timer. */
  lemma StartVoteIsSessionStart(s: Session, m: CentralManager.Manager, order: seq<int>, minutes: int, seconds: int)
    requires VoteSession.Distinct(order) && s.tutorialTimer && !s.votingTimer
    ensures StartVote(s, Some(m), order, minutes, seconds)
            == VoteSession.Start(s.(tutorialTimer := false), m, order, minutes, seconds)
  {
  }

  // ---------------------------------------------------------------------
  //  The results screen
  // ---------------------------------------------------------------------

  /** The results page's card keeps the list object it was built with, the
      one the global `voting_results_screen_lines` named at start-up.
      `shown` is that list's contents, and `aliased` says whether the global
      name still names it. The global name's own contents are the session's
      `resultsLines`. */
  datatype Board = Board(shown: seq<string>, aliased: bool)

  /** At start-up the card and the global name share one empty list. */
  const START_BOARD: Board := Board([], true)

  /** While the two are one list, the card shows what the name holds. */
  predicate Bound(s: Session, b: Board)
  {
    b.aliased ==> b.shown == s.resultsLines
  }

  /** The state after a step that touches the results screen, and the calls it made. */
  datatype BoardOut = BoardOut(s: Session, b: Board, effects: seq<VoteSession.Effect>)

  /** `end_vote` as written: stop the timer, broadcast STOP and bind the
      global name to a new list holding the results; `voting` stays set, and
      the card keeps its old list. */
  function EndVote(s: Session, b: Board, mgr: Option<CentralManager.Manager>, order: seq<int>): (o: BoardOut)
    requires VoteSession.Distinct(order)
    ensures mgr.None? || !s.votingTimer ==> o == BoardOut(s, b, [])
    ensures mgr.Some? && s.votingTimer ==>
              !o.s.votingTimer && o.s.voting == s.voting
              && o.s.record == s.record && VoteSession.ShowsTally(o.s.resultsLines, s.record)
              && o.s.screenLines == s.screenLines && o.s.tutorialTimer == s.tutorialTimer
              && o.b == Board(b.shown, false)
              && o.effects == [VoteSession.Radio(CentralManager.Broadcast(mgr.value, order, Cmd(Stop)))]
  {
    if mgr.None? || !s.votingTimer then BoardOut(s, b, [])
    else
      BoardOut(s.(votingTimer := false, resultsLines := VoteSession.VoteResults(s.record)),
            b.(aliased := false),
            [VoteSession.Radio(CentralManager.Broadcast(mgr.value, order, Cmd(Stop)))])
  }

  /** `end_vote` as the session version does it: the results are written
      into the list in place, so the card sees them, and votes are no longer
      accepted. */
  function EndVoteFixed(s: Session, b: Board, mgr: Option<CentralManager.Manager>, order: seq<int>): (o: BoardOut)
    requires VoteSession.Distinct(order)
    ensures mgr.None? ==> o == BoardOut(s, b, [])
    ensures mgr.Some? ==> o.s == VoteSession.End(s, mgr.value, order).s
                          && o.effects == VoteSession.End(s, mgr.value, order).effects
    ensures o.b.aliased == b.aliased && (Bound(s, b) ==> Bound(o.s, o.b))
    ensures mgr.Some? && s.votingTimer ==> !o.s.voting
  {
    if mgr.None? || !s.votingTimer then BoardOut(s, b, [])
    else
      var lines := VoteSession.VoteResults(s.record);
      BoardOut(s.(votingTimer := false, resultsLines := lines, voting := false),
            if b.aliased then b.(shown := lines) else b,
            [VoteSession.Radio(CentralManager.Broadcast(mgr.value, order, Cmd(Stop)))])
  }

  /** `reset_vote_state`: the session's `reset`, when a manager exists; the
      `.clear()` empties whatever list the global name holds, which is the
      card's list only while the two are still one. */
  function ResetVoteState(s: Session, b: Board, mgr: Option<CentralManager.Manager>, order: seq<int>): (o: BoardOut)
    requires VoteSession.Distinct(order)
    ensures mgr.None? ==> o == BoardOut(s, b, [])
    ensures mgr.Some? ==> o.s.record == map[] && o.s.resultsLines == [] && !o.s.voting
    ensures mgr.Some? ==> o.effects == [VoteSession.Radio(CentralManager.Broadcast(mgr.value, order, Cmd(IndicateNone))),
                                        VoteSession.ResumeScanning]
    ensures mgr.Some? ==> o.s.(record := s.record, resultsLines := s.resultsLines, voting := s.voting) == s
    ensures o.b.aliased == b.aliased && (b.aliased && mgr.Some? ==> o.b.shown == [])
    ensures !b.aliased ==> o.b == b
    ensures Bound(s, b) ==> Bound(o.s, o.b)
  {
    if mgr.None? then BoardOut(s, b, [])
    else
      var r := VoteSession.Reset(s, mgr.value, order);
      BoardOut(r.s, if b.aliased then b.(shown := []) else b, r.effects)
  }

  /** As written, the results page never shows a tally: its card starts
      empty, `end_vote` publishes the (never empty) results under a new
      list, and every later end or reset leaves the card's list alone or
      empties it. */
  lemma ResultsNeverShown(s: Session, b: Board, mgr: Option<CentralManager.Manager>, order: seq<int>)
    requires VoteSession.Distinct(order) && b.shown == []
    ensures EndVote(s, b, mgr, order).b.shown == []
    ensures ResetVoteState(s, b, mgr, order).b.shown == []
    ensures mgr.Some? && s.votingTimer ==> EndVote(s, b, mgr, order).s.resultsLines != []
  {
  }

  /** With the in-place write the card, still sharing the global list, shows
      the tally of the recorded votes once the round ends. */
  lemma FixedShowsTally(s: Session, b: Board, m: CentralManager.Manager, order: seq<int>)
    requires VoteSession.Distinct(order) && s.votingTimer && b.aliased
    ensures EndVoteFixed(s, b, Some(m), order).b.shown != []
    ensures VoteSession.ShowsTally(EndVoteFixed(s, b, Some(m), order).b.shown, s.record)
  {
  }

  // ---------------------------------------------------------------------
  //  The timer tick
  // ---------------------------------------------------------------------

  /** The waiting animation as this file writes it, testing `line[-3:]`. */
  function NextWaitingBySlice(line: string): (r: string)
    ensures r == VoteSession.NextWaiting(line)
  {
    VoteSession.SliceTestIsEndsWith(line);
    if PySlice(line, -3, |line|) == VoteSession.ELLIPSIS then VoteSession.WAITING else line + "."
  }

  /** The time left after one tick. */
  function Decremented(s: Session): int
  {
    VoteSession.NextTime(s.timing, s.timeLeft)
  }

  /** The voting screen after one tick refreshed its first line. */
  function Refreshed(s: Session, t: int): seq<string>
    requires s.screenLines != []
  {
    var line := if s.timing == VoteSession.Timed then VoteSession.TimeString(t) else NextWaitingBySlice(s.screenLines[0]);
    s.screenLines[0 := line]
  }

  /** `_voting_timer_tick` as written: without a manager or voting timer
      nothing happens; otherwise count down, schedule the ending button
      press when the round is over but do not stop there, refresh line 0
      and schedule a redraw. `Err` carries the effects already issued when
      an empty voting screen raises `IndexError`. */
  function Tick(s: Session, mgr: Option<CentralManager.Manager>, numPeers: int): (r: Result<Out, seq<VoteSession.Effect>>)
    ensures mgr.None? || !s.votingTimer ==> r == Ok(VoteSession.Out(s, []))
    ensures mgr.Some? && s.votingTimer ==>
              var over := VoteSession.RoundOver(VoteSession.NextTime(s.timing, s.timeLeft), s.record, numPeers);
              (r.Err? <==> s.screenLines == [])
              && (r.Err? ==> r.error == (if over then [VoteSession.ScheduleButtonPress] else []))
              && (r.Ok? ==> r.value.effects == (if over then [VoteSession.ScheduleButtonPress] else []) + [VoteSession.ScheduleDisplay])
    ensures mgr.Some? && s.votingTimer && r.Ok? ==>
              var n := r.value.s;
              n.timeLeft == VoteSession.NextTime(s.timing, s.timeLeft)
              && n.record == s.record && n.voting == s.voting && n.votingTimer == s.votingTimer
              && n.tutorialTimer == s.tutorialTimer && n.reporting == s.reporting && n.timing == s.timing
              && n.resultsLines == s.resultsLines
              && |n.screenLines| == |s.screenLines| && n.screenLines[1..] == s.screenLines[1..]
              && (s.timing == VoteSession.Timed && 0 <= n.timeLeft < 6000 ==> VoteSession.ShowsTime(n.screenLines[0], n.timeLeft))
              && (s.timing == VoteSession.Infinite ==> n.screenLines[0] == VoteSession.NextWaiting(s.screenLines[0]))
  {
    if mgr.None? || !s.votingTimer then Ok(VoteSession.Out(s, []))
    else
      var t := Decremented(s);
      var ending := if VoteSession.RoundOver(t, s.record, numPeers) then [VoteSession.ScheduleButtonPress] else [];
      if s.screenLines == [] then Err(ending)
      else Ok(VoteSession.Out(s.(timeLeft := t, screenLines := Refreshed(s, t)), ending + [VoteSession.ScheduleDisplay]))
  }

  /** In timed mode, the tick that finds one second left schedules the end
      and still redraws, showing "-1:59". */
  lemma TickShowsNegativeTime(s: Session, m: CentralManager.Manager, numPeers: int)
    requires s.votingTimer && s.timing == VoteSession.Timed && s.timeLeft == 0 && s.screenLines != []
    ensures Tick(s, Some(m), numPeers).Ok?
    ensures var o := Tick(s, Some(m), numPeers).value;
            o.s.screenLines[0] == "-1:59"
            && o.effects == [VoteSession.ScheduleButtonPress, VoteSession.ScheduleDisplay]
  {
    VoteSession.TimeStringMinusOne();
  }

  /** The tick as the session version does it: return right after
      scheduling the ending button press. */
  function TickFixed(s: Session, mgr: Option<CentralManager.Manager>, numPeers: int): (r: Result<Out, VoteSession.TickError>)
    ensures mgr.None? || !s.votingTimer ==> r == Ok(VoteSession.Out(s, []))
    ensures mgr.Some? && s.votingTimer ==> r == VoteSession.Tick(s, numPeers)
  {
    if mgr.None? || !s.votingTimer then Ok(VoteSession.Out(s, []))
    else
      var t := Decremented(s);
      if VoteSession.RoundOver(t, s.record, numPeers) then Ok(VoteSession.Out(s.(timeLeft := t), [VoteSession.ScheduleButtonPress]))
      else if s.screenLines == [] then Err(VoteSession.IndexError)
      else Ok(VoteSession.Out(s.(timeLeft := t, screenLines := Refreshed(s, t)), [VoteSession.ScheduleDisplay]))
  }

  /** The corrected tick never draws a negative countdown: whenever it
      schedules a redraw in timed mode, the time left is at least zero. */
  lemma TickFixedNeverNegative(s: Session, mgr: Option<CentralManager.Manager>, numPeers: int)
    requires TickFixed(s, mgr, numPeers).Ok? && s.timing == VoteSession.Timed
    requires VoteSession.ScheduleDisplay in TickFixed(s, mgr, numPeers).value.effects
    ensures TickFixed(s, mgr, numPeers).value.s.timeLeft >= 0
  {
  }

  // ---------------------------------------------------------------------
  //  Receiving and consuming votes
  // ---------------------------------------------------------------------

  /** The outcome of the `on_rx` callback: the queue afterwards, and
      whether `put_sync` raised because the queue was full. */
  datatype RxOut = RxOut(q: Queue<Item>, raised: bool)

  /** The `on_rx` callback: while voting, `put_sync` the pair without
      blocking; otherwise drop it. */
  function OnRx(voting: bool, q: Queue<Item>, conn: int, payload: Payload): (r: RxOut)
    requires Valid(q)
    ensures !voting ==> r == RxOut(q, false)
    ensures voting ==> Valid(r.q) && (r.raised <==> IsFull(q))
    ensures voting && !r.raised ==> Contents(r.q) == Contents(q) + [(conn, payload)]
    ensures voting && r.raised ==> Contents(r.q) == Contents(q)
  {
    if !voting then RxOut(q, false)
    else
      match PutSync(q, (conn, payload))
      case Stored(q') => RxOut(q', false)
      case Overflow(q') => RxOut(q', true)
  }

  /** After `end_vote` as written, a vote that arrives before the reset is
      still queued for counting. */
  lemma LateVoteQueued(s: Session, b: Board, m: CentralManager.Manager, order: seq<int>, q: Queue<Item>, conn: int, payload: Payload)
    requires VoteSession.Distinct(order) && s.voting && s.votingTimer && Valid(q) && !IsFull(q)
    ensures var ended := EndVote(s, b, Some(m), order).s;
            !ended.votingTimer
            && Contents(OnRx(ended.voting, q, conn, payload).q) == Contents(q) + [(conn, payload)]
  {
  }

  /** After the corrected `end_vote`, late votes are dropped. */
  lemma LateVoteDropped(s: Session, b: Board, m: CentralManager.Manager, order: seq<int>, q: Queue<Item>, conn: int, payload: Payload)
    requires VoteSession.Distinct(order) && s.votingTimer && Valid(q)
    ensures OnRx(EndVoteFixed(s, b, Some(m), order).s.voting, q, conn, payload) == RxOut(q, false)
  {
  }

  /** The command reflecting a received vote back to its voter. */
  function Reflection(payload: Payload): (c: Command)
    ensures payload == Vote(Yes) <==> c == IndicateYes
    ensures payload == Vote(No) <==> c == IndicateNo
    ensures payload != Vote(Yes) && payload != Vote(No) <==> c == IndicateNone
  {
    if payload == Vote(Yes) then IndicateYes
    else if payload == Vote(No) then IndicateNo
    else IndicateNone
  }

  /** One pass of `consume_queue` and the calls it made. */
  datatype Consumed = Consumed(s: Session, q: Queue<Item>, calls: seq<Call>)

  /** One pass of `consume_queue`: take the oldest pair (`None` while the
      queue is empty, the coroutine keeps waiting), record the vote under its
      connection, replacing any earlier one, and in public mode, with a
      manager, send the matching indication back to that connection. */
  function ConsumeOne(s: Session, q: Queue<Item>, mgr: Option<CentralManager.Manager>): (r: Option<Consumed>)
    requires Valid(q)
    ensures r.None? <==> IsEmpty(q)
    ensures r.Some? ==>
              var x := Contents(q)[0];
              Valid(r.value.q) && Contents(q) == [x] + Contents(r.value.q)
              && r.value.s == s.(record := s.record[x.0 := x.1])
              && r.value.calls == (if s.reporting == VoteSession.Public && mgr.Some?
                                   then CentralManager.Send(mgr.value, x.0, Cmd(Reflection(x.1))) else [])
  {
    match GetSync(q)
    case Empty => None
    case Got(x, q') =>
      var calls := if s.reporting == VoteSession.Public && mgr.Some?
                   then CentralManager.Send(mgr.value, x.0, Cmd(Reflection(x.1))) else [];
      Some(Consumed(s.(record := s.record[x.0 := x.1]), q', calls))
  }

  /** Anonymous reporting sends nothing back. */
  lemma AnonymousSendsNothing(s: Session, q: Queue<Item>, mgr: Option<CentralManager.Manager>)
    requires Valid(q) && !IsEmpty(q) && s.reporting == VoteSession.Anonymous
    ensures ConsumeOne(s, q, mgr).value.calls == []
  {
  }

  /** The record after taking `items` in order: each one overwrites its
      connection's entry. */
  function Recorded(record: map<int, Payload>, items: seq<Item>): map<int, Payload>
    decreases |items|
  {
    if items == [] then record
    else
      var last := items[|items| - 1];
      Recorded(record, items[..|items| - 1])[last.0 := last.1]
  }

  /** Taking one more item overwrites that item's connection. */
  lemma RecordedSnoc(record: map<int, Payload>, items: seq<Item>, x: Item)
    ensures Recorded(record, items + [x]) == Recorded(record, items)[x.0 := x.1]
  {
    assert (items + [x])[..|items|] == items;
  }

  /** A connection that sent nothing keeps its old entry, or stays absent. */
  lemma {:induction false} RecordedUntouched(record: map<int, Payload>, items: seq<Item>, c: int)
    requires forall j :: 0 <= j < |items| ==> items[j].0 != c
    ensures c in Recorded(record, items) <==> c in record
    ensures c in record ==> Recorded(record, items)[c] == record[c]
    decreases |items|
  {
    if items != [] {
      var init := items[..|items| - 1];
      assert forall j :: 0 <= j < |init| ==> init[j] == items[j];
      RecordedUntouched(record, init, c);
    }
  }

  /** One vote per connection, the latest one: a connection's entry is the
      payload of its last item. */
  lemma {:induction false} LastVoteWins(record: map<int, Payload>, items: seq<Item>, c: int, j: int)
    requires 0 <= j < |items| && items[j].0 == c
    requires forall k :: j < k < |items| ==> items[k].0 != c
    ensures c in Recorded(record, items) && Recorded(record, items)[c] == items[j].1
    decreases |items|
  {
    var init := items[..|items| - 1];
    if j < |items| - 1 {
      assert forall k :: j < k < |init| ==> init[k] == items[k];
      LastVoteWins(record, init, c, j);
    }
  }

  /** One pass of `Drain`'s loop keeps its invariant with the taken item
      appended. */
  lemma ConsumeAdvances(s: Session, q: Queue<Item>, s': Session, q': Queue<Item>, taken: seq<Item>, mgr: Option<CentralManager.Manager>)
    requires Valid(q) && Valid(q') && !IsEmpty(q')
    requires Contents(q) == taken + Contents(q')
    requires s' == s.(record := Recorded(s.record, taken))
    ensures var c := ConsumeOne(s', q', mgr).value;
            Valid(c.q) && QSize(c.q) < QSize(q')
            && Contents(q) == (taken + [Contents(q')[0]]) + Contents(c.q)
            && c.s == s.(record := Recorded(s.record, taken + [Contents(q')[0]]))
  {
    var c := ConsumeOne(s', q', mgr).value;
    var x := Contents(q')[0];
    RecordedSnoc(s.record, taken, x);
    assert taken + Contents(q') == (taken + [x]) + Contents(c.q);
  }

  /** `consume_queue` until the queue runs dry: every queued vote is taken
      in arrival order and recorded. */
  method Drain(s: Session, q: Queue<Item>, mgr: Option<CentralManager.Manager>) returns (s': Session, q': Queue<Item>)
    requires Valid(q)
    ensures Valid(q') && IsEmpty(q')
    ensures s' == s.(record := Recorded(s.record, Contents(q)))
  {
    s', q' := s, q;
    ghost var taken: seq<Item> := [];
    while !IsEmpty(q')
      invariant Valid(q')
      invariant Contents(q) == taken + Contents(q')
      invariant s' == s.(record := Recorded(s.record, taken))
      decreases QSize(q')
    {
      var c := ConsumeOne(s', q', mgr).value;
      ConsumeAdvances(s, q, s', q', taken, mgr);
      taken := taken + [Contents(q')[0]];
      s', q' := c.s, c.q;
    }
    EmptyFullIffQSize(q');
    assert taken + [] == taken;
  }

  // ---------------------------------------------------------------------
  //  Encoder and button
  // ---------------------------------------------------------------------

  /** `_encoder_callback`: the difference since the last reading is
      scheduled, and the reading becomes the new reference. */
  function EncoderCallback(prev: int, value: int): (r: (int, int))
    ensures r.0 == value && prev + r.1 == value
  {
    var d := value - prev;
    (prev + d, d)
  }

  /** `_handle_encoder_difference`: +1 moves the current page's focus
      forward, -1 back, anything else leaves the pages alone (the redraw
      that follows is not modelled). A missing current page raises
      `IndexError`; an empty one divides by zero. */
  function EncoderDifference(h: seq<int>, pages: seq<Page>, d: int): (r: Result<seq<Page>, UiError>)
    ensures d != 1 && d != -1 ==> r == Ok(pages)
    ensures (d == 1 || d == -1) && CurrentPage(h, pages).None? ==> r == Err(IndexError)
    ensures HistoryOk(h, |pages|) && |pages| >= 1 && (d == 1 || d == -1) ==>
              var i := h[|h| - 1];
              var moved := if d == 1 then FocusNext(pages[i]) else FocusPrevious(pages[i]);
              (r.Err? <==> moved.Err?)
              && (r.Ok? ==> r.value == pages[i := moved.value])
  {
    if d != 1 && d != -1 then Ok(pages)
    else
      match PyIndex(h, -1)
      case None => Err(IndexError)
      case Some(i) =>
        if !(-|pages| <= i < |pages|) then Err(IndexError)
        else
          var pos := if i >= 0 then i else |pages| + i;
          var moved := if d == 1 then FocusNext(pages[pos]) else FocusPrevious(pages[pos]);
          match moved
          case Err(e) => Err(e)
          case Ok(p) => Ok(pages[pos := p])
  }

  /** Turning the knob one detent forward and one back restores the pages. */
  lemma EncoderBackAndForth(h: seq<int>, pages: seq<Page>)
    requires HistoryOk(h, |pages|) && |pages| >= 1 && FocusOk(pages[h[|h| - 1]])
    ensures EncoderDifference(h, pages, 1).Ok?
    ensures EncoderDifference(h, EncoderDifference(h, pages, 1).value, -1) == Ok(pages)
  {
    var i := h[|h| - 1];
    FocusMovesInverse(pages[i]);
    var p1 := EncoderDifference(h, pages, 1).value;
    assert p1[i] == FocusNext(pages[i]).value;
    assert pages[i := FocusNext(pages[i]).value][i := pages[i]] == pages;
  }

  /** `_handle_button_press`: an armed tutorial timer starts the vote; then
      the current page is selected and redrawn. */
  function ButtonPress(s: Session, mgr: Option<CentralManager.Manager>, order: seq<int>, minutes: int, seconds: int): (o: Out)
    requires VoteSession.Distinct(order)
    ensures !s.tutorialTimer || mgr.None? ==>
              o == VoteSession.Out(s, [VoteSession.SelectCurrentPage, VoteSession.DisplayCurrentPage])
    ensures s.tutorialTimer && mgr.Some? ==>
              !o.s.tutorialTimer && o.s.voting && o.s.votingTimer && o.s.record == s.record
              && VoteSession.Opened(o.s, minutes, seconds)
              && o.effects == [VoteSession.Radio(CentralManager.Broadcast(mgr.value, order, Cmd(Ble.Start))),
                               VoteSession.SelectCurrentPage, VoteSession.DisplayCurrentPage]
  {
    var st := if s.tutorialTimer then StartVote(s, mgr, order, minutes, seconds) else VoteSession.Out(s, []);
    VoteSession.Out(st.s, st.effects + [VoteSession.SelectCurrentPage, VoteSession.DisplayCurrentPage])
  }

  /** The encoder button's debounce interval in milliseconds. */
  const BTN_DEBOUNCE_MS: int := 400
}

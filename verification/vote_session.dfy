/** One voting round, `VoteSession` of src/central/vote_session.py, and the
    two helpers it shares with src/central/main.py: the results lines and
    the `MM:SS` countdown. Timers are "running" flags; what a timer or
    `micropython.schedule` would call later is an emitted effect. The
    manager's `broadcast` is the `CentralManager.Broadcast` step, over a
    snapshot `order` of its peer handles. `stop_scanning`,
    `resume_scanning` and `num_peers` are not defined by the manager source,
    so the first two are effects and the last a parameter. */
module VoteSession {
  import opened Common
  import opened Ble
  import opened Text
  import CentralManager

  datatype Reporting = Public | Anonymous
  datatype Timing = Infinite | Timed

  const ELLIPSIS: string := "..."
  const WAITING: string := "Waiting"

  // ---------------------------------------------------------------------
  //  Results and time strings
  // ---------------------------------------------------------------------

  /** Connections whose recorded vote is `v`. */
  function Voters(record: map<int, Payload>, v: Payload): set<int>
  {
    set k | k in record && record[k] == v
  }

  predicate AllDigits(s: string)
  {
    forall i :: 0 <= i < |s| ==> IsDigit(s[i])
  }

  /** `line` is `tag` followed by the decimal rendering of `n`. */
  predicate Reads(line: string, tag: string, n: nat)
  {
    |line| > |tag| && line[..|tag|] == tag
    && AllDigits(line[|tag|..]) && DecValue(line[|tag|..]) == n
  }

  /** `_get_vote_results`: "No votes" for an empty record, otherwise the yes
      count, the no count and the number of voters, each after its tag. */
  function VoteResults(record: map<int, Payload>): (lines: seq<string>)
    ensures ShowsTally(lines, record)
  {
    if |record| == 0 then ["No votes"]
    else
      var y := |Voters(record, Vote(Yes))|;
      var n := |Voters(record, Vote(No))|;
      TaggedReads("Yes: ", y);
      TaggedReads("No: ", n);
      TaggedReads("Total: ", |record|);
      ["Yes: " + NatToDec(y), "No: " + NatToDec(n), "Total: " + NatToDec(|record|)]
  }

  /** `lines` are the results screen for `record`: "No votes" when nobody
      voted, otherwise the yes count, the no count and the number of
      voters, each after its tag. */
  predicate ShowsTally(lines: seq<string>, record: map<int, Payload>)
  {
    && (|record| == 0 ==> lines == ["No votes"])
    && (|record| > 0 ==>
          |lines| == 3
          && Reads(lines[0], "Yes: ", |Voters(record, Vote(Yes))|)
          && Reads(lines[1], "No: ", |Voters(record, Vote(No))|)
          && Reads(lines[2], "Total: ", |record|))
  }

  lemma TaggedReads(tag: string, n: nat)
    ensures Reads(tag + NatToDec(n), tag, n)
  {
    var line := tag + NatToDec(n);
    assert line[..|tag|] == tag && line[|tag|..] == NatToDec(n);
    DecRoundTrip(n);
  }

  /** The two counts never exceed the total: nobody is counted twice. */
  lemma YesNoWithinTotal(record: map<int, Payload>)
    ensures |Voters(record, Vote(Yes))| + |Voters(record, Vote(No))| <= |record|
  {
    var y, n := Voters(record, Vote(Yes)), Voters(record, Vote(No));
    assert y * n == {};
    assert |y + n| == |y| + |n|;
    SubsetCard(y + n, record.Keys);
  }

  lemma SubsetCard(a: set<int>, b: set<int>)
    requires a <= b
    ensures |a| <= |b|
  {
    assert b == a + (b - a);
    assert a * (b - a) == {};
  }

  /** `line` reads as `MM:SS` for `seconds`: two digits of minutes, a
      colon and two digits of seconds below 60. */
  predicate ShowsTime(line: string, seconds: int)
  {
    |line| == 5 && line[2] == ':' && AllDigits(line[..2]) && AllDigits(line[3..])
    && DecValue(line[3..]) < 60 && DecValue(line[..2]) * 60 + DecValue(line[3..]) == seconds
  }

  /** `_get_time_as_string`: Python's floor quotient and remainder by 60,
      each through `f"{n:02}"`. */
  function TimeString(seconds: int): (r: string)
    ensures 0 <= seconds < 6000 ==> ShowsTime(r, seconds)
  {
    var m := FloorDiv(seconds, 60);
    var s := FloorMod(seconds, 60);
    var r := Pad2(m) + ":" + Pad2(s);
    assert 0 <= seconds < 6000 ==> 0 <= m < 100 && 0 <= s < 60 && r[..2] == Pad2(m) && r[3..] == Pad2(s);
    r
  }

  /** One second before the countdown's end the minutes go negative: the
      string reads "-1:59". */
  lemma TimeStringMinusOne()
    ensures TimeString(-1) == "-1:59"
  {
    assert FloorDiv(-1, 60) == -1 && FloorMod(-1, 60) == 59;
    assert NatToDec(59) == NatToDec(5) + [DigitChar(9)];
  }

  // ---------------------------------------------------------------------
  //  The waiting animation
  // ---------------------------------------------------------------------

  predicate EndsWith(s: string, suffix: string)
  {
    |s| >= |suffix| && s[|s| - |suffix|..] == suffix
  }

  /** Line 0 in untimed mode: one more dot, or back to "Waiting" once the
      line ends in an ellipsis. */
  function NextWaiting(line: string): (r: string)
    ensures EndsWith(line, ELLIPSIS) ==> r == WAITING
    ensures !EndsWith(line, ELLIPSIS) ==> |r| == |line| + 1 && r[..|line|] == line && r[|line|] == '.'
  {
    if EndsWith(line, ELLIPSIS) then WAITING else line + "."
  }

  /** From "Waiting" the animation shows one, two and three dots and comes
      back after four ticks. */
  lemma WaitingCycle()
    ensures NextWaiting(WAITING) == "Waiting."
    ensures NextWaiting("Waiting.") == "Waiting.."
    ensures NextWaiting("Waiting..") == "Waiting..."
    ensures NextWaiting("Waiting...") == WAITING
  {
    assert !EndsWith(WAITING, ELLIPSIS) by { assert WAITING[4..] != ELLIPSIS; }
    assert !EndsWith("Waiting.", ELLIPSIS) by { assert "Waiting."[5..] != ELLIPSIS; }
    assert !EndsWith("Waiting..", ELLIPSIS) by { assert "Waiting.."[6..] != ELLIPSIS; }
    assert EndsWith("Waiting...", ELLIPSIS) by { assert "Waiting..."[7..] == ELLIPSIS; }
  }

  /** The global-state twin tests the last three characters with the slice
      `line[-3:]`; that is the same test. */
  lemma SliceTestIsEndsWith(line: string)
    ensures PySlice(line, -3, |line|) == ELLIPSIS <==> EndsWith(line, ELLIPSIS)
  {
    if |line| < 3 {
      assert |PySlice(line, -3, |line|)| < 3;
    }
  }

  // ---------------------------------------------------------------------
  //  The session
  // ---------------------------------------------------------------------

  /** The round's state. `tutorialTimer` and `votingTimer` say whether the
      one-shot tutorial timer and the periodic one-second timer exist. */
  datatype Session = Session(
    record: map<int, Payload>,
    tutorialTimer: bool,
    votingTimer: bool,
    timeLeft: int,
    voting: bool,
    reporting: Reporting,
    timing: Timing,
    screenLines: seq<string>,
    resultsLines: seq<string>)

  /** What the session asks of the manager, the scheduler and the router. */
  datatype Effect =
    | Radio(calls: seq<Call>)
    | StopScanning
    | ResumeScanning
    | ScheduleButtonPress
    | ScheduleDisplay
    | SelectCurrentPage
    | DisplayCurrentPage

  datatype Out = Out(s: Session, effects: seq<Effect>)

  datatype TickError = IndexError

  predicate Distinct(order: seq<int>)
  {
    forall i, j :: 0 <= i < j < |order| ==> order[i] != order[j]
  }

  /** `__init__`: no votes, no timers, public and untimed. */
  function NewSession(): (s: Session)
    ensures s.record == map[] && !s.voting && !s.votingTimer && !s.tutorialTimer
    ensures s.reporting == Public && s.timing == Infinite && s.screenLines == [] && s.resultsLines == []
  {
    Session(map[], false, false, 0, false, Public, Infinite, [], [])
  }

  /** `_initial_time`: the stepper's minutes and seconds when timed,
      otherwise 1. */
  function InitialTime(timing: Timing, minutes: int, seconds: int): (t: int)
    ensures timing == Timed ==> t == minutes * 60 + seconds
    ensures timing == Infinite ==> t == 1
  {
    if timing == Timed then minutes * 60 + seconds else 1
  }

  /** The first voting-screen line: the countdown, or "Waiting". */
  function FirstLine(timing: Timing, t: int): string
  {
    if timing == Timed then TimeString(t) else WAITING
  }

  /** The time left after one tick: a second less in timed mode, unchanged
      otherwise. */
  function NextTime(timing: Timing, t: int): (n: int)
    ensures timing == Timed ==> n < t
    ensures timing == Infinite ==> n == t
  {
    if timing == Timed then t - 1 else t
  }

  /** The voting screen right after a round starts: one line, the countdown
      of the initial time when timed, "Waiting" otherwise. */
  predicate Opened(s: Session, minutes: int, seconds: int)
  {
    && |s.screenLines| == 1
    && (s.timing == Infinite ==> s.timeLeft == 1 && s.screenLines[0] == WAITING)
    && (s.timing == Timed ==>
          s.timeLeft == minutes * 60 + seconds
          && (0 <= s.timeLeft < 6000 ==> ShowsTime(s.screenLines[0], s.timeLeft)))
  }

  /** `start`: a no-op while the voting timer runs; otherwise broadcast
      START, mark the round as voting, load the time, reset the voting
      screen to its first line and start the timer. */
  function Start(s: Session, m: CentralManager.Manager, order: seq<int>, minutes: int, seconds: int): (o: Out)
    requires Distinct(order)
    ensures s.votingTimer ==> o == Out(s, [])
    ensures !s.votingTimer ==>
              o.s.voting && o.s.votingTimer && Coherent(o.s) && Opened(o.s, minutes, seconds)
              && o.s.record == s.record && o.s.resultsLines == s.resultsLines
              && o.s.tutorialTimer == s.tutorialTimer && o.s.reporting == s.reporting && o.s.timing == s.timing
              && o.effects == [Radio(CentralManager.Broadcast(m, order, Cmd(Ble.Start)))]
  {
    if s.votingTimer then Out(s, [])
    else
      var t := InitialTime(s.timing, minutes, seconds);
      Out(s.(voting := true, votingTimer := true, timeLeft := t, screenLines := [FirstLine(s.timing, t)]),
          [Radio(CentralManager.Broadcast(m, order, Cmd(Ble.Start)))])
  }

  /** `end`: a no-op without the voting timer; otherwise stop it, broadcast
      STOP, publish the results and stop accepting votes. */
  function End(s: Session, m: CentralManager.Manager, order: seq<int>): (o: Out)
    requires Distinct(order)
    ensures !s.votingTimer ==> o == Out(s, [])
    ensures s.votingTimer ==>
              !o.s.voting && !o.s.votingTimer && Coherent(o.s)
              && o.s.record == s.record && ShowsTally(o.s.resultsLines, s.record)
              && o.s.screenLines == s.screenLines && o.s.timeLeft == s.timeLeft
              && o.s.tutorialTimer == s.tutorialTimer && o.s.reporting == s.reporting && o.s.timing == s.timing
              && o.effects == [Radio(CentralManager.Broadcast(m, order, Cmd(Stop)))]
  {
    if !s.votingTimer then Out(s, [])
    else
      Out(s.(votingTimer := false, resultsLines := VoteResults(s.record), voting := false),
          [Radio(CentralManager.Broadcast(m, order, Cmd(Stop)))])
  }

  /** `reset`: forget the votes and the results, broadcast INDICATE_NONE,
      stop accepting votes and resume scanning. */
  function Reset(s: Session, m: CentralManager.Manager, order: seq<int>): (o: Out)
    requires Distinct(order)
    ensures o.s == s.(record := map[], resultsLines := [], voting := false)
    ensures o.effects == [Radio(CentralManager.Broadcast(m, order, Cmd(IndicateNone))), ResumeScanning]
  {
    Out(s.(record := map[], resultsLines := [], voting := false),
        [Radio(CentralManager.Broadcast(m, order, Cmd(IndicateNone))), ResumeScanning])
  }

  /** `spawn`: stop scanning and arm the three-second tutorial timer. */
  function Spawn(s: Session): (o: Out)
    ensures o.s == s.(tutorialTimer := true) && o.effects == [StopScanning]
  {
    Out(s.(tutorialTimer := true), [StopScanning])
  }

  /** `handle_button_press`: the first press after the tutorial timer was
      armed disarms it and starts the round; every press then selects and
      redraws the router's current page. */
  function ButtonPress(s: Session, m: CentralManager.Manager, order: seq<int>, minutes: int, seconds: int): (o: Out)
    requires Distinct(order)
    ensures !s.tutorialTimer ==> o == Out(s, [SelectCurrentPage, DisplayCurrentPage])
    ensures s.tutorialTimer ==> !o.s.tutorialTimer && o.s.votingTimer && o.s.record == s.record
    ensures s.tutorialTimer && s.votingTimer ==>
              o == Out(s.(tutorialTimer := false), [SelectCurrentPage, DisplayCurrentPage])
    ensures s.tutorialTimer && !s.votingTimer ==>
              o.s.voting && Opened(o.s, minutes, seconds)
              && o.effects == [Radio(CentralManager.Broadcast(m, order, Cmd(Ble.Start))), SelectCurrentPage, DisplayCurrentPage]
  {
    if s.tutorialTimer then
      var st := Start(s.(tutorialTimer := false), m, order, minutes, seconds);
      Out(st.s, st.effects + [SelectCurrentPage, DisplayCurrentPage])
    else Out(s, [SelectCurrentPage, DisplayCurrentPage])
  }

  /** The round is over once the time ran out or every peer has voted. */
  predicate RoundOver(timeLeft: int, record: map<int, Payload>, numPeers: int)
  {
    timeLeft < 0 || |record| == numPeers
  }

  /** `_voting_timer_tick`: count down in timed mode; when the round is
      over, schedule the button press (which ends it) and stop there;
      otherwise refresh line 0, the countdown or the waiting animation, and
      schedule a redraw. An empty voting screen raises `IndexError`. */
  function Tick(s: Session, numPeers: int): (r: Result<Out, TickError>)
    ensures r.Err? <==> s.screenLines == [] && !RoundOver(NextTime(s.timing, s.timeLeft), s.record, numPeers)
    ensures r.Ok? ==>
              var n := r.value.s;
              n.timeLeft == NextTime(s.timing, s.timeLeft)
              && n.record == s.record && n.voting == s.voting && n.votingTimer == s.votingTimer
              && n.tutorialTimer == s.tutorialTimer && n.reporting == s.reporting && n.timing == s.timing
              && n.resultsLines == s.resultsLines
              && |n.screenLines| == |s.screenLines|
              && (s.screenLines != [] ==> n.screenLines[1..] == s.screenLines[1..])
    ensures r.Ok? ==>
              (r.value.effects == [ScheduleButtonPress] <==> RoundOver(r.value.s.timeLeft, s.record, numPeers))
              && (r.value.effects == [ScheduleButtonPress] || r.value.effects == [ScheduleDisplay])
    ensures r.Ok? && r.value.effects == [ScheduleButtonPress] ==> r.value.s.screenLines == s.screenLines
    ensures r.Ok? && r.value.effects == [ScheduleDisplay] ==>
              var n := r.value.s;
              s.screenLines != [] && |n.screenLines| == |s.screenLines|
              && (s.timing == Timed && n.timeLeft < 6000 ==> n.timeLeft >= 0 && ShowsTime(n.screenLines[0], n.timeLeft))
              && (s.timing == Infinite ==> n.screenLines[0] == NextWaiting(s.screenLines[0]))
  {
    var t := NextTime(s.timing, s.timeLeft);
    var s1 := s.(timeLeft := t);
    if RoundOver(t, s.record, numPeers) then Ok(Out(s1, [ScheduleButtonPress]))
    else if s.screenLines == [] then Err(IndexError)
    else
      var line := if s.timing == Timed then TimeString(t) else NextWaiting(s.screenLines[0]);
      Ok(Out(s1.(screenLines := s.screenLines[0 := line]), [ScheduleDisplay]))
  }

  // ---------------------------------------------------------------------
  //  Properties of a round
  // ---------------------------------------------------------------------

  /** Votes are only accepted while the voting timer runs. */
  predicate Coherent(s: Session)
  {
    s.voting ==> s.votingTimer
  }

  lemma StepsKeepCoherent(s: Session, m: CentralManager.Manager, order: seq<int>, minutes: int, seconds: int, numPeers: int)
    requires Distinct(order) && Coherent(s)
    ensures Coherent(Start(s, m, order, minutes, seconds).s)
    ensures Coherent(End(s, m, order).s)
    ensures Coherent(Reset(s, m, order).s)
    ensures Coherent(Spawn(s).s)
    ensures Coherent(ButtonPress(s, m, order, minutes, seconds).s)
    ensures Tick(s, numPeers).Ok? ==> Coherent(Tick(s, numPeers).value.s)
  {
  }

  /** Starting twice is starting once: the second call changes nothing. */
  lemma StartIdempotent(s: Session, m: CentralManager.Manager, order: seq<int>, minutes: int, seconds: int)
    requires Distinct(order)
    ensures var o := Start(s, m, order, minutes, seconds);
            Start(o.s, m, order, minutes, seconds) == Out(o.s, [])
  {
  }

  /** A started round ends with the results of exactly the votes recorded,
      no timer and no more voting. */
  lemma StartThenEnd(s: Session, m: CentralManager.Manager, order: seq<int>, minutes: int, seconds: int)
    requires Distinct(order) && !s.votingTimer
    ensures var e := End(Start(s, m, order, minutes, seconds).s, m, order);
            !e.s.voting && !e.s.votingTimer && e.s.record == s.record && ShowsTally(e.s.resultsLines, s.record)
            && e.effects == [Radio(CentralManager.Broadcast(m, order, Cmd(Stop)))]
  {
  }

  /** A timed countdown shows the time left as `MM:SS` on every tick that
      does not end the round (for countdowns under 100 minutes). */
  lemma TimedTickShowsTimeLeft(s: Session, numPeers: int)
    requires s.timing == Timed && s.screenLines != [] && s.timeLeft <= 6000
    requires Tick(s, numPeers).Ok? && Tick(s, numPeers).value.effects == [ScheduleDisplay]
    ensures var n := Tick(s, numPeers).value.s;
            var line := n.screenLines[0];
            n.timeLeft == s.timeLeft - 1 && n.timeLeft >= 0
            && |line| == 5 && DecValue(line[..2]) * 60 + DecValue(line[3..]) == n.timeLeft
  {
  }
}

/** The debounced button handler `get_db_button_irq` of
    src/common/utils.py (and its copy `_make_button_irq` in
    src/controller/main.py): an edge is accepted only when at least
    `debounce` milliseconds have passed since the last accepted edge, and an
    accepted edge schedules the callback once. Millisecond ticks are plain
    integers here. */
module Debounce {

  /** `last_time` as the closure starts it. */
  const INITIAL_LAST: int := 0

  /** The handler's state after one edge, and whether it scheduled the
      callback. */
  datatype Edge = Edge(last: int, scheduled: bool)

  /** `irq_handler` at time `now`. */
  function OnEdge(last: int, now: int, debounce: int): (r: Edge)
    ensures r.scheduled <==> now - last >= debounce
    ensures r.scheduled ==> r.last == now
    ensures !r.scheduled ==> r.last == last
  {
    if now - last < debounce then Edge(last, false) else Edge(now, true)
  }

  /** The times at which a run of edges scheduled the callback, one entry
      per scheduling, and the final `last_time`. */
  function Run(last: int, times: seq<int>, debounce: int): (r: (seq<int>, int))
    ensures |r.0| <= |times|
    ensures r.0 != [] ==> r.1 == r.0[|r.0| - 1]
    ensures r.0 == [] ==> r.1 == last
    decreases |times|
  {
    if times == [] then ([], last)
    else
      var e := OnEdge(last, times[0], debounce);
      var rest := Run(e.last, times[1..], debounce);
      (if e.scheduled then [times[0]] + rest.0 else rest.0, rest.1)
  }

  /** Accepted edges are spaced at least `debounce` apart, and the first one
      comes at least `debounce` after the starting `last_time`. */
  lemma {:induction false} RunSpacing(last: int, times: seq<int>, debounce: int)
    ensures var acc := Run(last, times, debounce).0;
            (acc != [] ==> acc[0] - last >= debounce)
            && forall i :: 0 <= i < |acc| - 1 ==> acc[i + 1] - acc[i] >= debounce
    decreases |times|
  {
    if times != [] {
      var e := OnEdge(last, times[0], debounce);
      RunSpacing(e.last, times[1..], debounce);
      var rest := Run(e.last, times[1..], debounce).0;
      if e.scheduled {
        var acc := [times[0]] + rest;
        assert forall i :: 1 <= i < |acc| - 1 ==> acc[i] == rest[i - 1] && acc[i + 1] == rest[i];
      }
    }
  }

  /** Each edge the run dropped came less than `debounce` after the last
      edge accepted before it (or after the starting `last_time`). */
  lemma {:induction false} RunDropsOnlyBounces(last: int, times: seq<int>, debounce: int, k: int)
    requires 0 <= k < |times|
    requires Run(last, times[..k + 1], debounce).0 == Run(last, times[..k], debounce).0
    ensures times[k] - Run(last, times[..k], debounce).1 < debounce
  {
    RunSnoc(last, times[..k], times[k], debounce);
    assert times[..k] + [times[k]] == times[..k + 1];
  }

  /** A run extended by one edge is the run followed by that edge's step. */
  lemma {:induction false} RunSnoc(last: int, times: seq<int>, t: int, debounce: int)
    ensures var r := Run(last, times, debounce);
            var e := OnEdge(r.1, t, debounce);
            Run(last, times + [t], debounce) == (if e.scheduled then r.0 + [t] else r.0, e.last)
    decreases |times|
  {
    if times == [] {
      assert times + [t] == [t] && [t][1..] == [];
      assert Run(OnEdge(last, t, debounce).last, [], debounce) == ([], OnEdge(last, t, debounce).last);
      assert [t] + [] == [] + [t];
    } else {
      var e := OnEdge(last, times[0], debounce);
      assert (times + [t])[0] == times[0];
      assert (times + [t])[1..] == times[1..] + [t];
      RunSnoc(e.last, times[1..], t, debounce);
      var rest := Run(e.last, times[1..], debounce).0;
      assert [times[0]] + (rest + [t]) == ([times[0]] + rest) + [t];
    }
  }
}

/** The interrupt-safe ring buffer `ThreadSafeQueue` (src/common/threadsafe_queue.py
    and its byte-identical copy src/controller/threadsafe_queue.py).

    A fixed-length backing list with a write index `wi` and a read index `ri`,
    both taken modulo the length. One slot is always kept free, so a queue of
    `size` slots holds at most `size - 1` items. Only the non-blocking paths
    of `get_sync`/`put_sync` are modelled; the asynchronous `get`/`put` are
    steps guarded by "not empty" / "not full". */
module RingQueue {
  import opened Common

  datatype Queue<T> = Queue(buf: seq<T>, wi: int, ri: int)

  /** Outcome of the non-blocking `put_sync`. On `Overflow` the value has
      still been written into slot `wi`; the index did not move. */
  datatype PutResult<T> = Stored(q: Queue<T>) | Overflow(q: Queue<T>)

  /** Outcome of the non-blocking `get_sync`. `Empty` leaves the queue as it was. */
  datatype GetResult<T> = Got(value: T, q: Queue<T>) | Empty

  /** Both indices lie inside a non-empty backing list. */
  predicate Valid<T>(q: Queue<T>)
  {
    |q.buf| > 0 && 0 <= q.wi < |q.buf| && 0 <= q.ri < |q.buf|
  }

  // ---------------------------------------------------------------------
  //  Construction
  // ---------------------------------------------------------------------

  /** `ThreadSafeQueue(n)` for an int `n`: `n` zero slots (none for `n <= 0`). */
  function FromSize(n: int): (q: Queue<int>)
    ensures |q.buf| == (if n < 0 then 0 else n)
    ensures forall j :: 0 <= j < |q.buf| ==> q.buf[j] == 0
    ensures q.wi == 0 && q.ri == 0
    ensures n > 0 ==> Valid(q) && IsEmpty(q) && Contents(q) == []
  {
    Queue(seq(if n < 0 then 0 else n, _ => 0), 0, 0)
  }

  /** `ThreadSafeQueue(lst)` for a pre-allocated list: the list is the buffer. */
  function FromList<T>(l: seq<T>): (q: Queue<T>)
    ensures q.buf == l && q.wi == 0 && q.ri == 0
    ensures |l| > 0 ==> Valid(q) && IsEmpty(q) && Contents(q) == []
  {
    Queue(l, 0, 0)
  }

  // ---------------------------------------------------------------------
  //  Predicates
  // ---------------------------------------------------------------------

  /** `full()`. */
  predicate IsFull<T>(q: Queue<T>)
    requires Valid(q)
  {
    (q.wi + 1) % |q.buf| == q.ri
  }

  /** `empty()`. */
  predicate IsEmpty<T>(q: Queue<T>)
  {
    q.ri == q.wi
  }

  /** `qsize()`; Dafny's `%` agrees with Python's for a positive divisor. */
  function QSize<T>(q: Queue<T>): int
    requires Valid(q)
  {
    (q.wi - q.ri) % |q.buf|
  }

  // ---------------------------------------------------------------------
  //  Abstraction: the items currently queued, oldest first
  // ---------------------------------------------------------------------

  /** Physical slot of the `k`-th live item counted from read index `ri`,
      written without `%` so that the proofs stay linear. */
  function Slot(ri: int, k: int, n: int): (j: int)
    requires 0 <= ri < n && 0 <= k < n
    ensures 0 <= j < n && j == (ri + k) % n
  {
    if ri + k < n then
      ModUnique(ri + k, n, 0, ri + k);
      ri + k
    else
      ModUnique(ri + k, n, 1, ri + k - n);
      ri + k - n
  }

  /** The queued items, read from slot `ri` up to (excluding) slot `wi`. */
  ghost function Contents<T>(q: Queue<T>): (s: seq<T>)
    requires Valid(q)
    ensures |s| == QSize(q)
  {
    QSizeBounds(q);
    seq(QSize(q), k requires 0 <= k < QSize(q) => q.buf[Slot(q.ri, k, |q.buf|)])
  }

  /** The number of queued items is the forward distance from `ri` to `wi`. */
  lemma QSizeIsDistance<T>(q: Queue<T>)
    requires Valid(q)
    ensures QSize(q) == if q.wi >= q.ri then q.wi - q.ri else q.wi - q.ri + |q.buf|
  {
    if q.wi >= q.ri {
      ModUnique(q.wi - q.ri, |q.buf|, 0, q.wi - q.ri);
    } else {
      ModUnique(q.wi - q.ri, |q.buf|, -1, q.wi - q.ri + |q.buf|);
    }
  }

  /** `qsize()` always lies in `[0, size - 1]`. */
  lemma QSizeBounds<T>(q: Queue<T>)
    requires Valid(q)
    ensures 0 <= QSize(q) < |q.buf|
  {
  }

  /** `empty()` and `full()` read as the two extremes of `qsize()`: the queue
      is empty exactly when it holds nothing and full exactly when it holds
      `size - 1` items. */
  lemma {:induction false} EmptyFullIffQSize<T>(q: Queue<T>)
    requires Valid(q)
    ensures IsEmpty(q) <==> QSize(q) == 0
    ensures IsFull(q) <==> QSize(q) == |q.buf| - 1
    ensures IsEmpty(q) <==> Contents(q) == []
  {
    var n := |q.buf|;
    QSizeIsDistance(q);
    if q.wi + 1 < n {
      ModUnique(q.wi + 1, n, 0, q.wi + 1);
    } else {
      ModUnique(q.wi + 1, n, 1, 0);
    }
  }

  // ---------------------------------------------------------------------
  //  Non-blocking operations
  // ---------------------------------------------------------------------

  /** `put_sync(v, block=False)`: the value is always written into slot `wi`;
      when the queue is full the call raises (`Overflow`) without moving `wi`,
      otherwise `wi` advances by one modulo the size. The slot written lies
      outside the live region, so the queued items are never disturbed. */
  function PutSync<T>(q: Queue<T>, v: T): (r: PutResult<T>)
    requires Valid(q)
    ensures Valid(r.q) && |r.q.buf| == |q.buf| && r.q.ri == q.ri
    ensures r.q.buf[q.wi] == v
    ensures forall j :: 0 <= j < |q.buf| && j != q.wi ==> r.q.buf[j] == q.buf[j]
    ensures r.Overflow? <==> IsFull(q)
    ensures r.Overflow? ==> r.q.wi == q.wi && Contents(r.q) == Contents(q)
    ensures r.Stored? ==> r.q.wi == (q.wi + 1) % |q.buf| && QSize(r.q) == QSize(q) + 1
    ensures r.Stored? ==> Contents(r.q) == Contents(q) + [v]
  {
    var n := |q.buf|;
    var buf := q.buf[q.wi := v];
    if (q.wi + 1) % n == q.ri then
      var q' := Queue(buf, q.wi, q.ri);
      PutKeepsLive(q, v, q');
      Overflow(q')
    else
      var q' := Queue(buf, (q.wi + 1) % n, q.ri);
      PutAppends(q, v, q');
      Stored(q')
  }

  lemma PutKeepsLive<T>(q: Queue<T>, v: T, q': Queue<T>)
    requires Valid(q) && q' == Queue(q.buf[q.wi := v], q.wi, q.ri)
    ensures Valid(q') && Contents(q') == Contents(q)
  {
    var n := |q.buf|;
    QSizeIsDistance(q);
    QSizeIsDistance(q');
    forall k | 0 <= k < QSize(q)
      ensures Contents(q')[k] == Contents(q)[k]
    {
      assert Slot(q.ri, k, n) != q.wi;
    }
  }

  lemma PutAppends<T>(q: Queue<T>, v: T, q': Queue<T>)
    requires Valid(q) && (q.wi + 1) % |q.buf| != q.ri
    requires q' == Queue(q.buf[q.wi := v], (q.wi + 1) % |q.buf|, q.ri)
    ensures Valid(q') && QSize(q') == QSize(q) + 1 && Contents(q') == Contents(q) + [v]
  {
    var n := |q.buf|;
    if q.wi + 1 < n {
      ModUnique(q.wi + 1, n, 0, q.wi + 1);
    } else {
      ModUnique(q.wi + 1, n, 1, 0);
    }
    QSizeIsDistance(q);
    QSizeIsDistance(q');
    assert Slot(q.ri, QSize(q), n) == q.wi;
    forall k | 0 <= k < QSize(q)
      ensures Contents(q')[k] == Contents(q)[k]
    {
      assert Slot(q.ri, k, n) != q.wi;
    }
  }

  /** `get_sync(block=False)`: an empty queue raises and nothing moves;
      otherwise the oldest item is returned and `ri` advances by one. */
  function GetSync<T>(q: Queue<T>): (r: GetResult<T>)
    requires Valid(q)
    ensures r.Empty? <==> IsEmpty(q)
    ensures r.Got? ==> Valid(r.q) && r.q.buf == q.buf && r.q.wi == q.wi
    ensures r.Got? ==> r.q.ri == (q.ri + 1) % |q.buf| && QSize(r.q) == QSize(q) - 1
    ensures r.Got? ==> Contents(q) == [r.value] + Contents(r.q)
  {
    if q.ri == q.wi then
      Empty
    else
      var q' := Queue(q.buf, q.wi, (q.ri + 1) % |q.buf|);
      GetPops(q, q');
      Got(q.buf[q.ri], q')
  }

  lemma GetPops<T>(q: Queue<T>, q': Queue<T>)
    requires Valid(q) && q.ri != q.wi
    requires q' == Queue(q.buf, q.wi, (q.ri + 1) % |q.buf|)
    ensures Valid(q') && QSize(q') == QSize(q) - 1
    ensures Contents(q) == [q.buf[q.ri]] + Contents(q')
  {
    var n := |q.buf|;
    if q.ri + 1 < n {
      ModUnique(q.ri + 1, n, 0, q.ri + 1);
    } else {
      ModUnique(q.ri + 1, n, 1, 0);
    }
    QSizeIsDistance(q);
    QSizeIsDistance(q');
    assert Slot(q.ri, 0, n) == q.ri;
    forall k | 0 <= k < QSize(q')
      ensures Contents(q')[k] == Contents(q)[k + 1]
    {
      SlotShift(q.ri, k, n);
    }
  }

  /** Counting from the next read slot is counting one further from the
      current one. */
  lemma SlotShift(ri: int, k: int, n: int)
    requires 0 <= ri < n && 0 <= k && k + 1 < n
    ensures Slot(if ri + 1 < n then ri + 1 else 0, k, n) == Slot(ri, k + 1, n)
  {
  }

  // ---------------------------------------------------------------------
  //  Asynchronous operations as guarded steps
  // ---------------------------------------------------------------------

  /** `await get()` once the queue is no longer empty. */
  function Get<T>(q: Queue<T>): (r: (T, Queue<T>))
    requires Valid(q) && !IsEmpty(q)
    ensures Valid(r.1) && Contents(q) == [r.0] + Contents(r.1)
  {
    var g := GetSync(q);
    (g.value, g.q)
  }

  /** `await put(v)` once the queue is no longer full: the `put_sync` it
      then performs never takes the overflow path. */
  function Put<T>(q: Queue<T>, v: T): (r: Queue<T>)
    requires Valid(q) && !IsFull(q)
    ensures Valid(r) && Contents(r) == Contents(q) + [v]
    ensures PutSync(q, v).Stored?
  {
    PutSync(q, v).q
  }

  // ---------------------------------------------------------------------
  //  FIFO refinement
  // ---------------------------------------------------------------------

  /** Successive non-blocking puts that all fit. */
  function PutAll<T>(q: Queue<T>, xs: seq<T>): (r: Queue<T>)
    requires Valid(q) && QSize(q) + |xs| < |q.buf|
    ensures Valid(r) && |r.buf| == |q.buf| && Contents(r) == Contents(q) + xs
    decreases |xs|
  {
    if xs == [] then q
    else
      var p := PutSync(q, xs[0]);
      EmptyFullIffQSize(q);
      assert p.Stored?;
      var r := PutAll(p.q, xs[1..]);
      assert Contents(q) + xs == Contents(q) + [xs[0]] + xs[1..];
      r
  }

  /** `n` successive non-blocking gets, returning the values read. */
  function GetAll<T>(q: Queue<T>, n: nat): (r: (seq<T>, Queue<T>))
    requires Valid(q) && n <= QSize(q)
    ensures Valid(r.1) && r.0 == Contents(q)[..n] && Contents(r.1) == Contents(q)[n..]
    decreases n
  {
    if n == 0 then ([], q)
    else
      EmptyFullIffQSize(q);
      var g := GetSync(q);
      var rest := GetAll(g.q, n - 1);
      assert Contents(q)[..n] == [g.value] + Contents(g.q)[..n - 1];
      ([g.value] + rest.0, rest.1)
  }

  /** Strict FIFO: items put into an empty queue come out in insertion
      order and leave it empty again. */
  lemma FifoOrder<T>(q: Queue<T>, xs: seq<T>)
    requires Valid(q) && IsEmpty(q) && |xs| < |q.buf|
    ensures QSize(q) == 0
    ensures GetAll(PutAll(q, xs), |xs|).0 == xs
    ensures IsEmpty(GetAll(PutAll(q, xs), |xs|).1)
  {
    EmptyFullIffQSize(q);
    var p := PutAll(q, xs);
    var g := GetAll(p, |xs|);
    EmptyFullIffQSize(g.1);
  }

  /** With capacity `K`, after `K - 1` puts into an empty queue it reports
      full and the `K`-th non-blocking put raises. */
  lemma OverflowAtCapacity<T>(q: Queue<T>, xs: seq<T>, v: T)
    requires Valid(q) && IsEmpty(q) && |xs| == |q.buf| - 1
    ensures IsFull(PutAll(q, xs))
    ensures PutSync(PutAll(q, xs), v).Overflow?
  {
    EmptyFullIffQSize(q);
    EmptyFullIffQSize(PutAll(q, xs));
  }
}

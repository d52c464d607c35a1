/** Shared vocabulary of the model: bytes, optional values, results, and the
    few Python built-ins (`in` on bytes, `list.remove`, `//` and `%`) whose
    exact behaviour the firmware relies on. */
module Common {

  /** One element of a Python `bytes` / `bytearray`. */
  type byte = b: int | 0 <= b < 256

  type bytes = seq<byte>

  datatype Option<+T> = None | Some(value: T)

  /** The outcome of an operation that raises in the source. */
  datatype Result<+T, +E> = Ok(value: T) | Err(error: E)

  // ---------------------------------------------------------------------
  //  `needle in haystack` on bytes
  // ---------------------------------------------------------------------

  /** `needle` occurs in `hay` starting at index `i`. */
  ghost predicate OccursAt<T>(needle: seq<T>, hay: seq<T>, i: int)
  {
    0 <= i && i + |needle| <= |hay| && hay[i..i + |needle|] == needle
  }

  /** `needle` occurs contiguously somewhere in `hay`. */
  ghost predicate IsInfix<T>(needle: seq<T>, hay: seq<T>)
  {
    exists i :: OccursAt(needle, hay, i)
  }

  /** Python's `needle in hay` for byte strings: a contiguous match (the
      empty needle occurs everywhere). */
  function Contains<T(==)>(hay: seq<T>, needle: seq<T>): (r: bool)
    ensures r <==> IsInfix(needle, hay)
    decreases |hay|
  {
    if |needle| <= |hay| && hay[..|needle|] == needle then
      assert OccursAt(needle, hay, 0);
      true
    else if |hay| == 0 then
      assert forall i :: !OccursAt(needle, hay, i);
      false
    else
      var r := Contains(hay[1..], needle);
      assert forall i :: OccursAt(needle, hay[1..], i) ==> OccursAt(needle, hay, i + 1) by {
        forall i | OccursAt(needle, hay[1..], i)
          ensures OccursAt(needle, hay, i + 1)
        {
          assert hay[1..][i..i + |needle|] == hay[i + 1..i + 1 + |needle|];
        }
      }
      assert forall i :: OccursAt(needle, hay, i) ==> i >= 1 && OccursAt(needle, hay[1..], i - 1) by {
        forall i | OccursAt(needle, hay, i)
          ensures i >= 1 && OccursAt(needle, hay[1..], i - 1)
        {
          assert hay[1..][i - 1..i - 1 + |needle|] == hay[i..i + |needle|];
        }
      }
      r
  }

  // ---------------------------------------------------------------------
  //  `list.remove(x)`: drop the first occurrence
  // ---------------------------------------------------------------------

  /** Index of the first occurrence of `x` in `s`. */
  function FirstIndex<T(==)>(s: seq<T>, x: T): (i: nat)
    requires x in s
    ensures i < |s| && s[i] == x && x !in s[..i]
  {
    if s[0] == x then 0
    else
      var j := FirstIndex(s[1..], x);
      assert s[..j + 1] == [s[0]] + s[1..][..j];
      j + 1
  }

  /** Python's `s.remove(x)` with the `ValueError` for a missing element
      swallowed: the first occurrence is dropped, or `s` is returned as is. */
  function RemoveFirst<T(==)>(s: seq<T>, x: T): (r: seq<T>)
    ensures x !in s ==> r == s
    ensures x in s ==> |r| == |s| - 1
    ensures x in s ==> exists i :: 0 <= i < |s| && s[i] == x && x !in s[..i] && r == s[..i] + s[i + 1..]
    ensures multiset(r) == multiset(s) - multiset{x}
  {
    if x !in s then
      assert multiset(s)[x] == 0;
      s
    else
      var i := FirstIndex(s, x);
      assert s == s[..i] + [x] + s[i + 1..];
      assert multiset(s) == multiset(s[..i]) + multiset{x} + multiset(s[i + 1..]);
      s[..i] + s[i + 1..]
  }

  // ---------------------------------------------------------------------
  //  Python indexing and slicing
  // ---------------------------------------------------------------------

  /** A slice bound as Python normalises it: negative counts from the end,
      then clamped to `0..n`. */
  function PyClamp(i: int, n: nat): (r: nat)
    ensures r <= n
    ensures 0 <= i <= n ==> r == i
    ensures i > n ==> r == n
    ensures i < 0 && i + n >= 0 ==> r == i + n
    ensures i + n < 0 ==> r == 0
  {
    if i < 0 then (if i + n < 0 then 0 else i + n) else if i > n then n else i
  }

  /** `s[a:b]`. */
  function PySlice<T>(s: seq<T>, a: int, b: int): seq<T>
  {
    var lo := PyClamp(a, |s|);
    var hi := PyClamp(b, |s|);
    if lo < hi then s[lo..hi] else []
  }

  /** `s[i]`, or `None` where Python raises `IndexError`. */
  function PyIndex<T>(s: seq<T>, i: int): (r: Option<T>)
    ensures r.Some? <==> -|s| <= i < |s|
    ensures 0 <= i < |s| ==> r == Some(s[i])
    ensures -|s| <= i < 0 ==> r == Some(s[|s| + i])
  {
    if 0 <= i < |s| then Some(s[i]) else if -|s| <= i < 0 then Some(s[|s| + i]) else None
  }

  // ---------------------------------------------------------------------
  //  Python integer division
  // ---------------------------------------------------------------------

  /** Python's `a // b` (rounds towards negative infinity). Dafny's own `/`
      is Euclidean and differs when `b < 0`. */
  function FloorDiv(a: int, b: int): int
    requires b != 0
  {
    if b > 0 then a / b else (-a) / (-b)
  }

  /** Python's `a % b`: the remainder takes the sign of the divisor. */
  function FloorMod(a: int, b: int): (r: int)
    requires b != 0
    ensures a == b * FloorDiv(a, b) + r
    ensures b > 0 ==> 0 <= r < b
    ensures b < 0 ==> b < r <= 0
  {
    if b > 0 then
      a % b
    else
      var q := (-a) / (-b);
      assert -a == (-b) * q + (-a) % (-b);
      a - b * q
  }

  /** Division with a positive divisor has one quotient/remainder pair. */
  lemma ModUnique(x: int, n: int, d: int, r: int)
    requires n > 0 && 0 <= r < n && x == d * n + r
    ensures x % n == r
  {
    var d', r' := x / n, x % n;
    assert x == d' * n + r';
    var k := d' - d;
    assert k * n == r - r' by {
      assert d' * n - d * n == (d' - d) * n;
    }
    if k > 0 {
      MulAtLeast(k, n);
    } else if k < 0 {
      MulAtLeast(-k, n);
    }
  }

  lemma MulAtLeast(k: int, n: int)
    requires k >= 1 && n > 0
    ensures k * n >= n
  {
    assert k * n == (k - 1) * n + n;
    assert (k - 1) * n >= 0;
  }

  /** Shifting by a multiple of the divisor keeps the Python remainder. */
  lemma FloorModShift(x: int, n: int, k: int)
    requires n != 0
    ensures FloorMod(x + n * k, n) == FloorMod(x, n)
  {
    if n > 0 {
      ShiftRemainder(x, n, k);
    } else {
      FloorModNegative(x, n);
      FloorModNegative(x + n * k, n);
      assert -(x + n * k) == -x + (-n) * k;
      ShiftRemainder(-x, -n, k);
    }
  }

  /** For a negative divisor the Python remainder is the negated Euclidean
      remainder of the negated operands. */
  lemma FloorModNegative(a: int, b: int)
    requires b < 0
    ensures FloorMod(a, b) == -((-a) % (-b))
  {
    var q := (-a) / (-b);
    assert b * q == -((-b) * q);
  }

  /** Adding `n * k` keeps the Euclidean remainder. */
  lemma ShiftRemainder(x: int, n: int, k: int)
    requires n > 0
    ensures (x + n * k) % n == x % n
  {
    var q, r := x / n, x % n;
    assert x + n * k == (q + k) * n + r by {
      assert (q + k) * n == q * n + k * n;
    }
    ModUnique(x + n * k, n, q + k, r);
  }
}

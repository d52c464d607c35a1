/** `XglcdFont.lit_bits` of src/central/lcd/xglcd_font.py: the buffer
    offsets of the set bits of one glyph byte, found with the
    lowest-set-bit trick `n & (~n + 1)` and the `BIT_POS` table. Worked in
    16-bit vectors: for the values involved (below 512) they agree with
    Python's unbounded two's-complement integers. */
module FontBits {
  /** Bit `i` of `n` is set. */
  predicate BitSet(n: bv16, i: bv16)
  {
    i < 16 && (n >> i) & 1 == 1
  }

  /** The mask of the bits below `k`. */
  function Below(k: bv16): bv16
    requires k < 16
  {
    (1 << k) - 1
  }

  /** No bit of `n` below `k` is set. */
  predicate Clear(n: bv16, k: bv16)
  {
    k < 16 && n & Below(k) == 0
  }

  /** The `BIT_POS` table: a single-bit value `2^i` (i < 9) to `2 i`. */
  function BitPos(b: bv16): (p: bv16)
    requires b == 1 || b == 2 || b == 4 || b == 8 || b == 16 || b == 32 || b == 64 || b == 128 || b == 256
  {
    if b == 1 then 0 else if b == 2 then 2 else if b == 4 then 4 else if b == 8 then 6
    else if b == 16 then 8 else if b == 32 then 10 else if b == 64 then 12 else if b == 128 then 14 else 16
  }

  lemma BitPosOf(k: bv16)
    requires k < 9
    ensures var b := 1 << k;
            (b == 1 || b == 2 || b == 4 || b == 8 || b == 16 || b == 32 || b == 64 || b == 128 || b == 256)
            && BitPos(b) == 2 * k
  {
  }

  /** The lowest set bit of `n`, searching upwards from `i`. */
  function LowestBitFrom(n: bv16, i: bv16): (k: bv16)
    requires n != 0 && i < 16 && Clear(n, i)
    ensures i <= k < 16 && BitSet(n, k) && Clear(n, k)
    decreases 16 - i as int
  {
    if BitSet(n, i) then
      i
    else
      MaskStep(n, i);
      var k := LowestBitFrom(n, i + 1);
      assert i + 1 <= k;
      k
  }

  lemma MaskStep(n: bv16, i: bv16)
    requires n != 0 && i < 16 && Clear(n, i) && !BitSet(n, i)
    ensures i < 15 && Clear(n, i + 1)
  {
  }

  lemma ClearBase(n: bv16)
    ensures Clear(n, 0)
  {
  }

  /** `n & (~n + 1)` isolates the lowest set bit. */
  lemma LowBitTrick(n: bv16, k: bv16)
    requires k < 16 && BitSet(n, k) && Clear(n, k)
    ensures n & (!n + 1) == 1 << k
  {
  }

  /** A value below 512 has no set bit above bit 8, so every isolated bit
      is a key of `BIT_POS`. */
  lemma HighBitClear(n: bv16, k: bv16)
    requires n < 512 && BitSet(n, k)
    ensures k < 9
  {
  }

  /** Clearing the lowest set bit (`n ^= b`) lowers the value, leaves no
      set bit at or below it, and keeps every higher bit. */
  lemma ClearFacts(n: bv16, k: bv16)
    requires k < 16 && BitSet(n, k) && Clear(n, k)
    ensures n ^ (1 << k) < n
    ensures Clear(n ^ (1 << k), k) && !BitSet(n ^ (1 << k), k)
    ensures k < 15 ==> (n ^ (1 << k)) >> (k + 1) == n >> (k + 1)
  {
  }

  /** Reference: the positions `2 i` of the set bits `i` of `n` with
      `start <= i < 9`, scanning upwards. */
  function LitRef(n: bv16, start: bv16): seq<bv16>
    requires start <= 9
    decreases 9 - start
  {
    if start == 9 then []
    else (if BitSet(n, start) then [2 * start] else []) + LitRef(n, start + 1)
  }

  lemma RefEnd(n: bv16, m: bv16, i: bv16)
    requires i <= 9 && !(i < 9)
    ensures LitRef(n, i) == [] && LitRef(m, i) == []
  {
  }

  lemma RefUnset(n: bv16, i: bv16)
    requires i < 9 && !BitSet(n, i)
    ensures LitRef(n, i) == LitRef(n, i + 1)
  {
  }

  lemma RefSet(n: bv16, i: bv16)
    requires i < 9 && BitSet(n, i)
    ensures LitRef(n, i) == [2 * i] + LitRef(n, i + 1)
  {
  }

  lemma RefCons(n: bv16, m: bv16, i: bv16)
    requires i < 9 && BitSet(n, i) == BitSet(m, i) && LitRef(n, i + 1) == LitRef(m, i + 1)
    ensures LitRef(n, i) == LitRef(m, i)
  {
  }

  /** Clear bits below `k` contribute nothing. */
  lemma {:induction false} RefSkip(n: bv16, i: bv16, k: bv16)
    requires i <= k <= 9 && Clear(n, k)
    ensures LitRef(n, i) == LitRef(n, k)
    decreases k - i
  {
    if i < k {
      BelowClear(n, k, i);
      RefSkip(n, i + 1, k);
      RefUnset(n, i);
    }
  }

  lemma BelowClear(n: bv16, k: bv16, j: bv16)
    requires j < k < 16 && Clear(n, k)
    ensures !BitSet(n, j)
  {
  }

  /** Numbers that agree from bit `i` upwards list the same positions from `i`. */
  lemma {:induction false} RefAgree(n: bv16, m: bv16, i: bv16)
    requires i <= 9 && n >> i == m >> i
    ensures LitRef(n, i) == LitRef(m, i)
    decreases 9 - i
  {
    if i < 9 {
      ShiftAgree(n, m, i);
      RefAgree(n, m, i + 1);
      RefCons(n, m, i);
    } else {
      RefEnd(n, m, i);
    }
  }

  lemma ShiftAgree(n: bv16, m: bv16, i: bv16)
    requires i < 9 && n >> i == m >> i
    ensures BitSet(n, i) == BitSet(m, i) && n >> (i + 1) == m >> (i + 1)
  {
  }

  /** One step of `lit_bits`: the lowest set bit `k` comes first, and the
      rest are the positions of `n` with that bit cleared. */
  lemma LitStep(n: bv16, k: bv16)
    requires n < 512 && k < 9 && BitSet(n, k) && Clear(n, k)
    ensures LitRef(n, 0) == [2 * k] + LitRef(n ^ (1 << k), 0)
  {
    var m := n ^ (1 << k);
    ClearFacts(n, k);
    RefSkip(n, 0, k);
    RefSkip(m, 0, k);
    RefUnset(m, k);
    RefAgree(n, m, k + 1);
    RefSet(n, k);
  }

  lemma ZeroRef(n: bv16)
    requires n == 0
    ensures LitRef(n, 0) == []
  {
    assert Clear(n, 9);
    RefSkip(n, 0, 9);
    RefEnd(n, n, 9);
  }

  /** `lit_bits(n)`: repeatedly isolate the lowest set bit with
      `n & (~n + 1)`, yield its `BIT_POS` entry and clear it. */
  function LitBits(n: bv16): (r: seq<bv16>)
    requires n < 512
    ensures r == LitRef(n, 0)
    decreases n
  {
    if n == 0 then
      ZeroRef(n);
      []
    else
      ClearBase(n);
      var k := LowestBitFrom(n, 0);
      var b := n & (!n + 1);
      LowBitTrick(n, k);
      HighBitClear(n, k);
      BitPosOf(k);
      ClearFacts(n, k);
      var rest := LitBits(n ^ b);
      LitStep(n, k);
      [BitPos(b)] + rest
  }
}

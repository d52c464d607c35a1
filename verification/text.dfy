/** Text helpers: Python's decimal rendering of integers (`f"{n}"`,
    `f"{n:02}"`), `str.strip()`, `str.find`, `str.split(',')` and the UTF-8
    encoding of `str.encode()`. */
module Text {
  import opened Common

  function DigitChar(d: int): (c: char)
    requires 0 <= d < 10
    ensures '0' <= c <= '9'
  {
    (48 + d) as char
  }

  predicate IsDigit(c: char)
  {
    '0' <= c <= '9'
  }

  function DigitValue(c: char): (d: int)
    requires IsDigit(c)
    ensures 0 <= d < 10 && DigitChar(d) == c
  {
    c as int - 48
  }

  /** `str(n)` for a natural number: decimal digits, no leading zero. */
  function NatToDec(n: nat): (s: string)
    ensures |s| >= 1 && forall i :: 0 <= i < |s| ==> IsDigit(s[i])
    ensures |s| > 1 ==> s[0] != '0'
    decreases n
  {
    if n < 10 then [DigitChar(n)] else NatToDec(n / 10) + [DigitChar(n % 10)]
  }

  /** The value of a string of decimal digits. */
  function DecValue(s: string): (n: nat)
    requires forall i :: 0 <= i < |s| ==> IsDigit(s[i])
    decreases |s|
  {
    if s == [] then 0 else 10 * DecValue(s[..|s| - 1]) + DigitValue(s[|s| - 1])
  }

  /** Reading back a rendered number gives the number. */
  lemma {:induction false} DecRoundTrip(n: nat)
    ensures DecValue(NatToDec(n)) == n
    decreases n
  {
    if n >= 10 {
      DecRoundTrip(n / 10);
      var s := NatToDec(n);
      assert s[..|s| - 1] == NatToDec(n / 10);
    }
  }

  /** `f"{n}"` for any int. */
  function IntToDec(n: int): (s: string)
    ensures n >= 0 ==> s == NatToDec(n)
    ensures n < 0 ==> s == "-" + NatToDec(-n)
  {
    if n >= 0 then NatToDec(n) else "-" + NatToDec(-n)
  }

  /** `f"{n:02}"`: zero-padded to at least two characters; the sign of a
      negative number counts towards the width. */
  function Pad2(n: int): (s: string)
    ensures |s| >= 2
    ensures 0 <= n < 100 ==> |s| == 2 && IsDigit(s[0]) && IsDigit(s[1]) && DecValue(s) == n
    ensures n >= 100 ==> s == NatToDec(n)
  {
    if 0 <= n < 10 then
      var s := "0" + [DigitChar(n)];
      assert s[..1] == "0" && DecValue(s[..1][..0]) == 0;
      s
    else if 10 <= n < 100 then
      var s := NatToDec(n);
      assert s == NatToDec(n / 10) + [DigitChar(n % 10)];
      assert DecValue(s) == n by {
        DecRoundTrip(n);
      }
      s
    else
      IntToDec(n)
  }

  // ---------------------------------------------------------------------
  //  Strings
  // ---------------------------------------------------------------------

  /** The ASCII whitespace `str.strip()` removes. Python also strips a few
      other Unicode spaces, which font files written in C syntax do not use. */
  predicate IsSpace(c: char)
  {
    c == ' ' || c == '\t' || c == '\n' || c == '\r' || c == '\U{000B}' || c == '\U{000C}'
  }

  function StripLeft(s: string): (r: string)
    ensures |r| <= |s| && r == s[|s| - |r|..]
    ensures r == [] || !IsSpace(r[0])
    ensures forall i :: 0 <= i < |s| - |r| ==> IsSpace(s[i])
  {
    if s != [] && IsSpace(s[0]) then StripLeft(s[1..]) else s
  }

  function StripRight(s: string): (r: string)
    ensures |r| <= |s| && r == s[..|r|]
    ensures r == [] || !IsSpace(r[|r| - 1])
    ensures forall i :: |r| <= i < |s| ==> IsSpace(s[i])
  {
    if s != [] && IsSpace(s[|s| - 1]) then StripRight(s[..|s| - 1]) else s
  }

  /** `s.strip()`: no whitespace at either end, and the middle untouched. */
  function Strip(s: string): (r: string)
    ensures r == [] || (!IsSpace(r[0]) && !IsSpace(r[|r| - 1]))
    ensures IsInfix(r, s)
    ensures TrimmedOf(r, s)
  {
    var l := StripLeft(s);
    var r := StripRight(l);
    StripBothEnds(s, l, r);
    r
  }

  /** A suffix of `s` after blanks, cut before trailing blanks, is a
      trimmed infix of `s`. */
  lemma StripBothEnds(s: string, l: string, r: string)
    requires |l| <= |s| && l == s[|s| - |l|..] && forall i :: 0 <= i < |s| - |l| ==> IsSpace(s[i])
    requires |r| <= |l| && r == l[..|r|] && forall i :: |r| <= i < |l| ==> IsSpace(l[i])
    ensures OccursAt(r, s, |s| - |l|) && TrimmedAt(s, |s| - |l|, |s| - |l| + |r|)
  {
    var a := |s| - |l|;
    var b := a + |r|;
    forall i | a <= i < |s| ensures s[i] == l[i - a] {
    }
    assert r == s[a..b];
  }

  /** `r` is `s` with a whitespace-only prefix and suffix cut off. */
  ghost predicate TrimmedOf(r: string, s: string)
  {
    exists a, b :: TrimmedAt(s, a, b) && r == s[a..b]
  }

  /** Everything of `s` before `a` and from `b` on is whitespace. */
  ghost predicate TrimmedAt(s: string, a: int, b: int)
  {
    0 <= a <= b <= |s|
    && (forall i :: 0 <= i < a ==> IsSpace(s[i]))
    && (forall i :: b <= i < |s| ==> IsSpace(s[i]))
  }

  /** No occurrence of `t` in `s` starts before index `i`. */
  ghost predicate NoneBefore(t: string, s: string, i: int)
  {
    forall j :: 0 <= j < i ==> !OccursAt(t, s, j)
  }

  /** `s.find(t)`: index of the first occurrence, or -1. */
  function Find(s: string, t: string): (i: int)
    ensures -1 <= i <= |s| - |t| || (i == -1 && |t| > |s|)
    ensures i >= 0 ==> OccursAt(t, s, i) && NoneBefore(t, s, i)
    ensures i == -1 ==> !IsInfix(t, s)
    decreases |s|
  {
    if |t| <= |s| && s[..|t|] == t then
      assert OccursAt(t, s, 0);
      0
    else if |s| <= |t| then
      assert !IsInfix(t, s);
      -1
    else
      var k := Find(s[1..], t);
      FindLater(s, t, k);
      if k == -1 then -1 else k + 1
  }

  /** When `t` does not start `s`, the search result for `s` is the one for
      `s[1..]` shifted by one. */
  lemma FindLater(s: string, t: string, k: int)
    requires |s| > |t| && s[..|t|] != t
    requires -1 <= k <= |s| - 1 - |t|
    requires k >= 0 ==> OccursAt(t, s[1..], k) && NoneBefore(t, s[1..], k)
    requires k == -1 ==> !IsInfix(t, s[1..])
    ensures k >= 0 ==> OccursAt(t, s, k + 1) && NoneBefore(t, s, k + 1)
    ensures k == -1 ==> !IsInfix(t, s)
  {
    assert forall j :: 1 <= j ==> (OccursAt(t, s, j) <==> OccursAt(t, s[1..], j - 1)) by {
      forall j | 1 <= j ensures OccursAt(t, s, j) <==> OccursAt(t, s[1..], j - 1) {
        if j + |t| <= |s| {
          assert s[1..][j - 1..j - 1 + |t|] == s[j..j + |t|];
        }
      }
    }
    assert !OccursAt(t, s, 0) by {
      assert s[..|t|] == s[0..|t|];
    }
  }

  /** `sep.join(parts)` for a one-character separator. */
  function Join(parts: seq<string>, sep: char): string
    requires |parts| >= 1
    decreases |parts|
  {
    if |parts| == 1 then parts[0] else parts[0] + [sep] + Join(parts[1..], sep)
  }

  /** `s.split(sep)` for a one-character separator: separator-free parts
      that join back to `s`. */
  function Split(s: string, sep: char): (parts: seq<string>)
    ensures |parts| >= 1
    ensures forall i :: 0 <= i < |parts| ==> sep !in parts[i]
    ensures Join(parts, sep) == s
    decreases |s|
  {
    if sep !in s then [s]
    else
      var i := FirstIndex(s, sep);
      var rest := Split(s[i + 1..], sep);
      assert s == s[..i] + [sep] + s[i + 1..];
      assert ([s[..i]] + rest)[1..] == rest;
      [s[..i]] + rest
  }

  /** The first `x` in `a + [x] + b` is the one after `a` when `a` has none. */
  lemma {:induction false} FirstIndexPast<T>(a: seq<T>, x: T, b: seq<T>)
    requires x !in a
    ensures FirstIndex(a + [x] + b, x) == |a|
    decreases |a|
  {
    if a != [] {
      assert (a + [x] + b)[1..] == a[1..] + [x] + b;
      FirstIndexPast(a[1..], x, b);
    }
  }

  /** `split` at a first separator. */
  lemma SplitAt(a: string, b: string, sep: char)
    requires sep !in a
    ensures Split(a + [sep] + b, sep) == [a] + Split(b, sep)
  {
    var s := a + [sep] + b;
    FirstIndexPast(a, sep, b);
    assert s[..|a|] == a && s[|a| + 1..] == b;
  }

  /** Splitting separator-free parts joined by the separator gives the
      parts back. */
  lemma {:induction false} SplitJoin(parts: seq<string>, sep: char)
    requires |parts| >= 1 && forall i :: 0 <= i < |parts| ==> sep !in parts[i]
    ensures Split(Join(parts, sep), sep) == parts
    decreases |parts|
  {
    if |parts| == 1 {
      assert sep !in parts[0];
    } else {
      assert sep !in parts[0];
      SplitAt(parts[0], Join(parts[1..], sep), sep);
      SplitJoin(parts[1..], sep);
      assert parts == [parts[0]] + parts[1..];
    }
  }

  // ---------------------------------------------------------------------
  //  UTF-8
  // ---------------------------------------------------------------------

  /** The UTF-8 encoding of one Unicode scalar value (section 3 of
      RFC 3629): one byte below 0x80; otherwise a lead byte `110xxxxx`,
      `1110xxxx` or `11110xxx` carrying the high bits, then `10xxxxxx`
      continuation bytes of six bits each, most significant first. */
  function Utf8Char(c: char): (b: bytes)
    ensures |b| == EncodedLength(c as int)
    ensures c as int < 128 ==> b == [c as int]
    ensures |b| == 2 ==> 0xC0 <= b[0] < 0xE0
    ensures |b| == 3 ==> 0xE0 <= b[0] < 0xF0
    ensures |b| == 4 ==> 0xF0 <= b[0] < 0xF8
    ensures forall i :: 1 <= i < |b| ==> IsContinuation(b[i])
  {
    var v := c as int;
    if v < 0x80 then [v]
    else if v < 0x800 then [0xC0 + v / 64, 0x80 + v % 64]
    else if v < 0x10000 then [0xE0 + v / 64 / 64, 0x80 + v / 64 % 64, 0x80 + v % 64]
    else [0xF0 + v / 64 / 64 / 64, 0x80 + v / 64 / 64 % 64, 0x80 + v / 64 % 64, 0x80 + v % 64]
  }

  /** Bytes per scalar value: 1 below 0x80, 2 below 0x800, 3 below
      0x10000, else 4. */
  function EncodedLength(v: int): nat
  {
    if v < 0x80 then 1 else if v < 0x800 then 2 else if v < 0x10000 then 3 else 4
  }

  predicate IsContinuation(x: byte)
  {
    0x80 <= x < 0xC0
  }

  /** A code point Dafny's `char` can hold: a Unicode scalar value. */
  predicate IsScalar(v: int)
  {
    0 <= v < 0xD800 || 0xE000 <= v < 0x110000
  }

  /** `s.encode()` (UTF-8). */
  function Utf8Encode(s: string): (b: bytes)
    ensures |s| <= |b| <= 4 * |s|
    ensures (forall i :: 0 <= i < |s| ==> s[i] as int < 128) ==> b == seq(|s|, i requires 0 <= i < |s| => s[i] as int)
    decreases |s|
  {
    if s == [] then [] else Utf8Char(s[0]) + Utf8Encode(s[1..])
  }

  /** Decodes the first scalar value of a UTF-8 byte string: the character
      and the number of bytes it took, or `None` for a malformed,
      truncated, overlong or surrogate sequence. */
  function Utf8DecodeChar(b: bytes): (r: Option<(char, nat)>)
    ensures r.Some? ==> 1 <= r.value.1 <= |b| && r.value.1 <= 4
  {
    if b == [] then None
    else if b[0] < 0x80 then Some((b[0] as char, 1))
    else if 0xC0 <= b[0] < 0xE0 && |b| >= 2 && IsContinuation(b[1]) then
      var v := Bits(b[0] as int - 0xC0, b[1..2]);
      if v < 0x80 || !IsScalar(v) then None else Some((v as char, 2))
    else if 0xE0 <= b[0] < 0xF0 && |b| >= 3 && IsContinuation(b[1]) && IsContinuation(b[2]) then
      var v := Bits(b[0] as int - 0xE0, b[1..3]);
      if v < 0x800 || !IsScalar(v) then None else Some((v as char, 3))
    else if 0xF0 <= b[0] < 0xF8 && |b| >= 4 && IsContinuation(b[1]) && IsContinuation(b[2]) && IsContinuation(b[3]) then
      var v := Bits(b[0] as int - 0xF0, b[1..4]);
      if v < 0x10000 || !IsScalar(v) then None else Some((v as char, 4))
    else None
  }

  /** The lead byte's payload bits followed by six bits per continuation
      byte, most significant first. */
  function Bits(lead: int, cont: bytes): int
    decreases |cont|
  {
    if cont == [] then lead else Bits(lead * 64 + (cont[0] as int - 0x80), cont[1..])
  }

  /** Decodes a whole UTF-8 byte string, or `None` if any part is malformed. */
  function Utf8Decode(b: bytes): (r: Option<string>)
    decreases |b|
  {
    if b == [] then Some([])
    else
      match Utf8DecodeChar(b)
      case None => None
      case Some((c, n)) =>
        match Utf8Decode(b[n..])
        case None => None
        case Some(rest) => Some([c] + rest)
  }

  /** One encoded character is decoded back off the front of any bytes
      that follow it. */
  lemma Utf8CharDecodes(c: char, rest: bytes)
    ensures Utf8DecodeChar(Utf8Char(c) + rest) == Some((c, |Utf8Char(c)|))
  {
    var v := c as int;
    var e := Utf8Char(c);
    var b := e + rest;
    assert IsScalar(v);
    var q := v / 64;
    var q2 := q / 64;
    if v < 0x80 {
    } else if v < 0x800 {
      assert b[1..2] == [0x80 + v % 64];
      assert Bits(b[0] as int - 0xC0, b[1..2]) == Bits(q * 64 + v % 64, []) == v;
    } else if v < 0x10000 {
      assert b[1..3] == [0x80 + q % 64, 0x80 + v % 64];
      assert [0x80 + q % 64, 0x80 + v % 64][1..] == [0x80 + v % 64];
      assert b[0] as int - 0xE0 == q2;
      assert Bits(b[0] as int - 0xE0, b[1..3]) == Bits(q2 * 64 + q % 64, [0x80 + v % 64]);
      assert q2 * 64 + q % 64 == q;
      assert Bits(q, [0x80 + v % 64]) == Bits(q * 64 + v % 64, []) == v;
      assert IsContinuation(b[1]) && IsContinuation(b[2]);
      assert Utf8DecodeChar(b) == Some((v as char, 3));
    } else {
      assert b[1..4] == [0x80 + q2 % 64, 0x80 + q % 64, 0x80 + v % 64];
      assert [0x80 + q2 % 64, 0x80 + q % 64, 0x80 + v % 64][1..] == [0x80 + q % 64, 0x80 + v % 64];
      assert [0x80 + q % 64, 0x80 + v % 64][1..] == [0x80 + v % 64];
      assert b[0] as int - 0xF0 == q2 / 64;
      assert Bits(b[0] as int - 0xF0, b[1..4]) == Bits((q2 / 64) * 64 + q2 % 64, [0x80 + q % 64, 0x80 + v % 64]);
      assert (q2 / 64) * 64 + q2 % 64 == q2;
      assert q2 * 64 + q % 64 == q;
      assert Bits(q, [0x80 + v % 64]) == Bits(q * 64 + v % 64, []) == v;
    }
  }

  /** Decoding inverts `s.encode()`: the UTF-8 bytes of a string determine
      the string. */
  lemma {:induction false} Utf8RoundTrip(s: string)
    ensures Utf8Decode(Utf8Encode(s)) == Some(s)
    decreases |s|
  {
    if s != [] {
      var head := Utf8Char(s[0]);
      var tail := Utf8Encode(s[1..]);
      Utf8CharDecodes(s[0], tail);
      assert (head + tail)[|head|..] == tail;
      Utf8RoundTrip(s[1..]);
      assert [s[0]] + s[1..] == s;
    }
  }

  /** Encoding is a homomorphism: a concatenation encodes to the
      concatenation of the encodings. */
  lemma {:induction false} Utf8EncodeAppend(a: string, b: string)
    ensures Utf8Encode(a + b) == Utf8Encode(a) + Utf8Encode(b)
    decreases |a|
  {
    if a == [] {
      assert a + b == b;
    } else {
      var t := a[1..];
      assert a == [a[0]] + t;
      assert a + b == [a[0]] + (t + b);
      Utf8EncodeCons(a[0], t + b);
      Utf8EncodeCons(a[0], t);
      Utf8EncodeAppend(t, b);
      SeqAssoc(Utf8Char(a[0]), Utf8Encode(t), Utf8Encode(b));
    }
  }

  lemma Utf8EncodeCons(c: char, t: string)
    ensures Utf8Encode([c] + t) == Utf8Char(c) + Utf8Encode(t)
  {
    assert ([c] + t)[0] == c && ([c] + t)[1..] == t;
  }

  lemma SeqAssoc<T>(x: seq<T>, y: seq<T>, z: seq<T>)
    ensures x + (y + z) == (x + y) + z
  {
  }
}

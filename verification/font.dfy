/** `XglcdFont` of src/central/lcd/xglcd_font.py: the font metrics, the
    loader that fills one fixed-size slot per hex line of an X-GLCD font
    file, the glyph lookup of `get_letter` (its guard, slicing and buffer
    sizing) and `measure_text`. The file is given as its sequence of lines. */
module Font {
  import opened Common
  import opened Text

  // ---------------------------------------------------------------------
  //  Metrics
  // ---------------------------------------------------------------------

  /** `max(height, 8)`: glyphs are at least one byte tall. */
  function Height(height: int): (h: int)
    ensures h >= 8 && h >= height && (h == height || h == 8)
  {
    if height > 8 then height else 8
  }

  /** `floor((height - 1) / 8) + 1`: the bytes one glyph column needs, the
      least `c` with `8 * c >= height`. */
  function ColumnBytes(height: int): (c: int)
    requires height >= 1
    ensures c >= 1 && 8 * (c - 1) < height <= 8 * c
  {
    FloorDiv(height - 1, 8) + 1
  }

  /** One width byte, then `ColumnBytes` per column for `width` columns. */
  function BytesPerLetter(width: nat, height: int): int
    requires height >= 8
  {
    ColumnBytes(height) * width + 1
  }

  datatype Font = Font(
    width: nat,
    height: int,
    startLetter: int,
    letterCount: int,
    bytesPerLetter: int,
    letters: bytes)

  /** What the constructor establishes: metrics as computed and one
      `bytesPerLetter` slot per letter. */
  ghost predicate Valid(f: Font)
  {
    f.height >= 8
    && f.bytesPerLetter == BytesPerLetter(f.width, f.height)
    && f.letterCount >= 0
    && |f.letters| == f.bytesPerLetter * f.letterCount
  }

  lemma BytesPerLetterPositive(width: nat, height: int)
    requires height >= 8
    ensures BytesPerLetter(width, height) >= 1
  {
    assert ColumnBytes(height) * width >= 0;
  }

  // ---------------------------------------------------------------------
  //  Hex numbers: `int(s, 16)`
  // ---------------------------------------------------------------------

  function HexDigitValue(c: char): (r: Option<int>)
    ensures r.Some? ==> 0 <= r.value < 16
  {
    if '0' <= c <= '9' then Some(c as int - '0' as int)
    else if 'a' <= c <= 'f' then Some(c as int - 'a' as int + 10)
    else if 'A' <= c <= 'F' then Some(c as int - 'A' as int + 10)
    else None
  }

  /** The value of a string of hex digits, most significant first. */
  function HexDigits(ds: string): (r: Option<nat>)
    ensures r.Some? <==> forall i :: 0 <= i < |ds| ==> HexDigitValue(ds[i]).Some?
    decreases |ds|
  {
    if ds == [] then Some(0)
    else
      var init := ds[..|ds| - 1];
      assert forall i :: 0 <= i < |init| ==> init[i] == ds[i];
      match HexDigits(init)
      case None => None
      case Some(v) =>
        match HexDigitValue(ds[|ds| - 1])
        case None => None
        case Some(d) => Some(16 * v + d)
  }

  /** `int(s, 16)`: surrounding whitespace is ignored; `None` where Python
      raises `ValueError`. */
  function ParseHexInt(s: string): Option<int>
  {
    HexLiteral(Strip(s))
  }

  /** A stripped `int(t, 16)` literal: an optional sign, an optional
      `0x`/`0X` prefix, then at least one hex digit. */
  function HexLiteral(t: string): Option<int>
  {
    var negative := |t| > 0 && t[0] == '-';
    var unsigned := if |t| > 0 && (t[0] == '-' || t[0] == '+') then t[1..] else t;
    var digits :=
      if |unsigned| >= 2 && unsigned[0] == '0' && (unsigned[1] == 'x' || unsigned[1] == 'X')
      then unsigned[2..] else unsigned;
    if digits == [] then None
    else
      match HexDigits(digits)
      case None => None
      case Some(v) =>
        var m: int := v;
        Some(if negative then -m else m)
  }

  /** A value `bytearray` accepts. */
  predicate IsByteValue(v: Option<int>)
  {
    v.Some? && 0 <= v.value < 256
  }

  datatype LoadError = NegativeSize | BadValue | WrongLength

  /** Every part parses to a byte value. */
  ghost predicate AllBytes(parts: seq<string>)
  {
    forall i :: 0 <= i < |parts| ==> IsByteValue(ParseHexInt(parts[i]))
  }

  /** `bs` holds the parsed value of each part, in order. */
  ghost predicate ValuesOf(parts: seq<string>, bs: bytes)
  {
    |bs| == |parts| && forall i :: 0 <= i < |parts| ==> ParseHexInt(parts[i]).Some? && bs[i] == ParseHexInt(parts[i]).value
  }

  /** `bytearray(int(b, 16) for b in parts)`: every part is parsed, and the
      bytes are collected unless one value is missing or out of range. */
  function ParseParts(parts: seq<string>): (r: Result<bytes, LoadError>)
    ensures r.Ok? <==> AllBytes(parts)
    ensures r.Ok? ==> ValuesOf(parts, r.value)
    ensures r.Err? ==> r.error == BadValue
  {
    var hs := seq(|parts|, i requires 0 <= i < |parts| => ParseHexInt(parts[i]));
    MapBytes(parts, ParseHexInt, hs);
    ToBytes(hs)
  }

  /** `ToBytes` over the values of any parser `f`, part by part. */
  lemma MapBytes(parts: seq<string>, f: string -> Option<int>, hs: seq<Option<int>>)
    requires |hs| == |parts| && forall i :: 0 <= i < |parts| ==> hs[i] == f(parts[i])
    ensures ToBytes(hs).Ok? <==> forall i :: 0 <= i < |parts| ==> IsByteValue(f(parts[i]))
    ensures ToBytes(hs).Ok? ==> |ToBytes(hs).value| == |parts| && forall i :: 0 <= i < |parts| ==> ToBytes(hs).value[i] == f(parts[i]).value
  {
  }

  /** `bytearray` of already parsed values: `BadValue` for a missing or
      out-of-range value. */
  function ToBytes(hs: seq<Option<int>>): (r: Result<bytes, LoadError>)
    ensures r.Ok? <==> forall i :: 0 <= i < |hs| ==> IsByteValue(hs[i])
    ensures r.Ok? ==> |r.value| == |hs| && forall i :: 0 <= i < |hs| ==> r.value[i] == hs[i].value
    ensures r.Err? ==> r.error == BadValue
    decreases |hs|
  {
    if hs == [] then Ok([])
    else if !IsByteValue(hs[0]) then Err(BadValue)
    else
      var tail := hs[1..];
      assert forall i :: 1 <= i < |hs| ==> hs[i] == tail[i - 1];
      match ToBytes(tail)
      case Err(e) => Err(e)
      case Ok(rest) => Ok([hs[0].value as byte] + rest)
  }

  /** A first part that parses to the byte `v`, before parts that parse to
      `tail`, gives `[v] + tail`. */
  lemma PartsCons(parts: seq<string>, v: byte, tail: bytes)
    requires parts != [] && ParseHexInt(parts[0]) == Some(v as int)
    requires ParseParts(parts[1..]) == Ok(tail)
    ensures ParseParts(parts) == Ok([v] + tail)
  {
    var r := ParseParts(parts);
    ConsBy(parts, ParseHexInt, v, tail);
    assert r.Ok?;
    SameValues(parts, ParseHexInt, r.value, [v] + tail);
  }

  lemma ConsBy(parts: seq<string>, f: string -> Option<int>, v: byte, tail: bytes)
    requires parts != [] && f(parts[0]) == Some(v as int)
    requires |tail| == |parts| - 1
    requires forall i :: 0 <= i < |parts| - 1 ==> IsByteValue(f(parts[1..][i])) && tail[i] == f(parts[1..][i]).value
    ensures forall i :: 0 <= i < |parts| ==> IsByteValue(f(parts[i])) && ([v] + tail)[i] == f(parts[i]).value
  {
    forall i | 0 < i < |parts| ensures IsByteValue(f(parts[i])) && ([v] + tail)[i] == f(parts[i]).value {
      assert parts[i] == parts[1..][i - 1];
    }
  }

  lemma SameValues(parts: seq<string>, f: string -> Option<int>, a: bytes, b: bytes)
    requires |a| == |b| == |parts|
    requires forall i :: 0 <= i < |parts| ==> f(parts[i]).Some? && a[i] == f(parts[i]).value && b[i] == f(parts[i]).value
    ensures a == b
  {
  }

  /** The values of one cleaned data line. */
  function ParseValues(line: string): Result<bytes, LoadError>
  {
    ParseParts(Split(line, ','))
  }

  lemma ParseValuesNonEmpty(line: string)
    requires ParseValues(line).Ok?
    ensures |ParseValues(line).value| >= 1
  {
  }

  // ---------------------------------------------------------------------
  //  Loader
  // ---------------------------------------------------------------------

  /** The line starts with the `0x` of a hex value. */
  predicate StartsHex(l: string)
  {
    |l| >= 2 && l[..2] == "0x"
  }

  /** `p` is `l` up to its first `//`, or all of `l` when there is none. */
  ghost predicate BeforeComment(l: string, p: string)
  {
    |p| <= |l| && p == l[..|p|] && NoneBefore("//", l, |p|) && (|p| == |l| || OccursAt("//", l, |p|))
  }

  /** `v` is the stripped text before the first `//` of the stripped line,
      less one trailing comma. */
  ghost predicate CleansTo(line: string, v: string)
  {
    exists p :: BeforeComment(Strip(line), p) && v == DropComma(Strip(p))
  }

  /** The cleanup of one line: `None` for a line that, stripped, does not
      start with `0x`; otherwise the text before any `//` comment, stripped,
      without one trailing comma. */
  function CleanLine(line: string): (r: Option<string>)
    ensures r.Some? <==> StartsHex(Strip(line))
    ensures r.Some? ==> IsInfix(r.value, line) && !IsInfix("//", r.value)
    ensures r.Some? ==> CleansTo(line, r.value)
    ensures r.Some? && !IsInfix("//", line) ==> r.value == DropComma(Strip(line))
  {
    var l := Strip(line);
    if !StartsHex(l) then None
    else
      var c := Find(l, "//");
      var l2 := if c != -1 then Strip(l[..c]) else l;
      var l3 := DropComma(l2);
      CleanSteps(line, l, c, l2, l3);
      CleanValue(line, l, c, l2);
      Some(l3)
  }

  /** The stripped text kept before the comment: either way it is the strip
      of the part before the first `//`, and a line with no `//` keeps its
      whole stripped text. */
  lemma CleanValue(line: string, l: string, c: int, l2: string)
    requires l == Strip(line) && c == Find(l, "//")
    requires l2 == if c != -1 then Strip(l[..c]) else l
    ensures CleansTo(line, DropComma(l2))
    ensures !IsInfix("//", line) ==> l2 == l
  {
    if c != -1 {
      assert BeforeComment(l, l[..c]);
    } else {
      if l != [] {
        NoBlankEnds(l);
      }
      assert l[..|l|] == l;
      assert BeforeComment(l, l);
    }
    if !IsInfix("//", line) && c != -1 {
      assert OccursAt("//", l, c);
      InfixTrans("//", l, line);
      assert false;
    }
  }

  /** `l[:-1]` when `l` ends with a comma, else `l`. */
  function DropComma(l: string): (r: string)
    ensures |r| <= |l| && r == l[..|r|]
    ensures r != l <==> |l| > 0 && l[|l| - 1] == ','
    ensures |l| > 0 && l[|l| - 1] == ',' ==> r == l[..|l| - 1]
  {
    if |l| > 0 && l[|l| - 1] == ',' then l[..|l| - 1] else l
  }

  lemma CleanSteps(line: string, l: string, c: int, l2: string, l3: string)
    requires l == Strip(line) && c == Find(l, "//")
    requires l2 == if c != -1 then Strip(l[..c]) else l
    requires l3 == DropComma(l2)
    ensures IsInfix(l3, line) && !IsInfix("//", l3)
  {
    PrefixInfix(l2, |l3|);
    if c != -1 {
      PrefixInfix(l, c);
      InfixTrans(l2, l[..c], l);
      NoMatchBeforeFirst(l, c);
      NotInfixOfInfix("//", l2, l[..c]);
      NotInfixOfInfix("//", l3, l2);
    } else {
      NotInfixOfInfix("//", l3, l);
      assert l[..|l|] == l;
      PrefixInfix(l, |l|);
    }
    InfixTrans(l3, l2, l);
    InfixTrans(l3, l, line);
  }

  lemma PrefixInfix<T>(s: seq<T>, n: nat)
    requires n <= |s|
    ensures IsInfix(s[..n], s)
  {
    assert OccursAt(s[..n], s, 0);
  }

  lemma InfixTrans<T>(a: seq<T>, b: seq<T>, c: seq<T>)
    requires IsInfix(a, b) && IsInfix(b, c)
    ensures IsInfix(a, c)
  {
    var i :| OccursAt(a, b, i);
    var j :| OccursAt(b, c, j);
    assert b[i..i + |a|] == a && c[j..j + |b|] == b;
    assert 0 <= i && i + |a| <= |b| && 0 <= j && j + |b| <= |c|;
    forall k | 0 <= k < |a| ensures c[j + i + k] == a[k] {
      assert b[i..i + |a|][k] == b[i + k];
      assert c[j..j + |b|][i + k] == c[j + i + k];
    }
    assert c[j + i..j + i + |a|] == a;
    assert OccursAt(a, c, j + i);
  }

  lemma NotInfixOfInfix<T>(x: seq<T>, a: seq<T>, b: seq<T>)
    requires IsInfix(a, b) && !IsInfix(x, b)
    ensures !IsInfix(x, a)
  {
    if IsInfix(x, a) {
      InfixTrans(x, a, b);
    }
  }

  /** Before the first occurrence of `//` no earlier one fits. */
  lemma NoMatchBeforeFirst(l: string, c: int)
    requires 0 <= c <= |l| && forall j :: 0 <= j < c ==> !OccursAt("//", l, j)
    ensures !IsInfix("//", l[..c])
  {
    if IsInfix("//", l[..c]) {
      var j :| OccursAt("//", l[..c], j);
      assert l[j..j + 2] == l[..c][j..j + 2];
      assert OccursAt("//", l, j);
    }
  }

  /** The cleanup applied to every line of the file. */
  function CleanAll(lines: seq<string>): (cs: seq<Option<string>>)
    ensures |cs| == |lines| && forall i :: 0 <= i < |lines| ==> cs[i] == CleanLine(lines[i])
  {
    seq(|lines|, i requires 0 <= i < |lines| => CleanLine(lines[i]))
  }

  /** The present values, in order. */
  function Present<T>(os: seq<Option<T>>): (d: seq<T>)
    ensures |d| <= |os|
    decreases |os|
  {
    if os == [] then []
    else
      var last := os[|os| - 1];
      Present(os[..|os| - 1]) + (if last.Some? then [last.value] else [])
  }

  /** The cleaned text of every data line, in file order. */
  function DataLines(lines: seq<string>): seq<string>
  {
    Present(CleanAll(lines))
  }

  lemma {:induction false} PresentPrefix<T>(os: seq<Option<T>>, i: nat)
    requires i <= |os|
    ensures Present(os[..i]) <= Present(os)
    decreases |os| - i
  {
    if i < |os| {
      PresentPrefix(os, i + 1);
      assert os[..i + 1][..i] == os[..i];
    } else {
      assert os[..i] == os;
    }
  }

  /** Where every entry is present, all of them are kept. */
  lemma {:induction false} PresentAll<T>(os: seq<Option<T>>)
    requires forall i :: 0 <= i < |os| ==> os[i].Some?
    ensures Present(os) == seq(|os|, i requires 0 <= i < |os| => os[i].value)
    decreases |os|
  {
    if os != [] {
      PresentAll(os[..|os| - 1]);
    }
  }

  /** The data lines load: at most `count` of them, each of exactly `bpl`
      byte values. */
  ghost predicate Loadable(bpl: int, count: int, d: seq<string>)
  {
    |d| <= count
    && forall k :: 0 <= k < |d| ==> ParseValues(d[k]).Ok? && |ParseValues(d[k]).value| == bpl
  }

  function Zeros(n: nat): (z: bytes)
    ensures |z| == n && forall i :: 0 <= i < n ==> z[i] == 0
  {
    seq(n, _ => 0)
  }

  /** Slot `k` of a buffer of `n`-byte slots. */
  function Slot(buf: bytes, n: int, k: int): (s: bytes)
    requires n >= 1 && 0 <= k && (k + 1) * n <= |buf|
    ensures |s| == n
  {
    MulLe(k, k + 1, n);
    buf[k * n..(k + 1) * n]
  }

  /** Rows laid end to end. */
  function Flatten(rows: seq<bytes>): bytes
    decreases |rows|
  {
    if rows == [] then [] else Flatten(rows[..|rows| - 1]) + rows[|rows| - 1]
  }

  lemma {:induction false} FlattenLength(rows: seq<bytes>, n: int)
    requires forall k :: 0 <= k < |rows| ==> |rows[k]| == n
    ensures |Flatten(rows)| == |rows| * n
    decreases |rows|
  {
    if rows != [] {
      FlattenLength(rows[..|rows| - 1], n);
    }
  }

  /** Row `k` of equally long rows occupies `k * n .. (k + 1) * n`. */
  lemma {:induction false} FlattenSlot(rows: seq<bytes>, n: int, k: int, tail: bytes)
    requires n >= 1 && forall j :: 0 <= j < |rows| ==> |rows[j]| == n
    requires 0 <= k < |rows|
    ensures (k + 1) * n <= |Flatten(rows) + tail|
    ensures Slot(Flatten(rows) + tail, n, k) == rows[k]
    decreases |rows|
  {
    var init := rows[..|rows| - 1];
    FlattenLength(init, n);
    FlattenLength(rows, n);
    assert Flatten(rows) == Flatten(init) + rows[|rows| - 1];
    MulLe(k + 1, |rows|, n);
    if k == |rows| - 1 {
      assert (Flatten(rows) + tail)[k * n..(k + 1) * n] == rows[k];
    } else {
      FlattenSlot(init, n, k, rows[|rows| - 1] + tail);
      assert Flatten(init) + rows[|rows| - 1] + tail == Flatten(init) + (rows[|rows| - 1] + tail);
    }
  }

  lemma MulLe(a: int, b: int, n: int)
    requires 0 <= a <= b && n >= 0
    ensures 0 <= a * n <= b * n
  {
    assert b * n - a * n == (b - a) * n;
  }

  /** The parse of every data line, in file order. */
  function ParseAll(d: seq<string>): (ps: seq<Result<bytes, LoadError>>)
    ensures |ps| == |d| && forall k :: 0 <= k < |d| ==> ps[k] == ParseValues(d[k])
  {
    seq(|d|, k requires 0 <= k < |d| => ParseValues(d[k]))
  }

  /** Every parse succeeded, with `bpl` values, and there are at most
      `count` of them. */
  ghost predicate AllFit(bpl: int, count: int, ps: seq<Result<bytes, LoadError>>)
  {
    |ps| <= count && forall k :: 0 <= k < |ps| ==> ps[k].Ok? && |ps[k].value| == bpl
  }

  /** The parses `ps` succeeded with the `bpl`-byte rows `rows`. */
  ghost predicate ParsedAs(ps: seq<Result<bytes, LoadError>>, rows: seq<bytes>, bpl: int)
  {
    |ps| == |rows| && forall k :: 0 <= k < |ps| ==> ps[k] == Ok(rows[k]) && |rows[k]| == bpl
  }

  lemma ParsedSnoc(ps: seq<Result<bytes, LoadError>>, i: nat, rows: seq<bytes>, bpl: int, vs: bytes)
    requires i < |ps| && ParsedAs(ps[..i], rows, bpl) && ps[i] == Ok(vs) && |vs| == bpl
    ensures ParsedAs(ps[..i + 1], rows + [vs], bpl)
  {
    assert ps[..i + 1] == ps[..i] + [ps[i]];
  }

  /** Slot arithmetic for `n` of `count` slots of `bpl` bytes. */
  lemma SlotArith(n: int, count: int, bpl: int)
    requires 0 <= n <= count && bpl >= 1
    ensures 0 <= n * bpl <= bpl * count
    ensures (n + 1) * bpl == n * bpl + bpl
    ensures n < count ==> n * bpl + bpl <= bpl * count
    ensures n == count ==> n * bpl == bpl * count
  {
    MulLe(n, count, bpl);
    if n < count {
      MulLe(n + 1, count, bpl);
    }
  }

  /** `buf` holds `rows` end to end, then zeros up to `total` bytes. */
  ghost predicate Laid(buf: bytes, rows: seq<bytes>, total: int)
  {
    |Flatten(rows)| <= total && buf == Flatten(rows) + Zeros(total - |Flatten(rows)|)
  }

  /** Past the rows, the buffer is still zero. */
  lemma ZeroTail(buf: bytes, rows: seq<bytes>, total: int)
    requires Laid(buf, rows, total)
    ensures forall i :: 0 <= i < |buf| && i >= |Flatten(rows)| ==> buf[i] == 0
  {
  }

  /** `buf` holds the parsed lines `ps`, all successful, in consecutive
      `bpl`-byte slots, and zeros after them. */
  ghost predicate Holds(buf: bytes, bpl: int, ps: seq<Result<bytes, LoadError>>)
  {
    bpl >= 1
    && (forall k :: 0 <= k < |ps| ==> ps[k].Ok? && (k + 1) * bpl <= |buf| && Slot(buf, bpl, k) == ps[k].value)
    && (forall i :: 0 <= i < |buf| && i >= |ps| * bpl ==> buf[i] == 0)
  }

  /** Writing one more row over the zero tail of the buffer. */
  lemma SlotWrite(rows: seq<bytes>, vs: bytes, total: int, buf: bytes, lo: int, hi: int)
    requires lo == |Flatten(rows)| && hi == lo + |vs| <= total
    requires Laid(buf, rows, total)
    ensures Laid(buf[..lo] + vs + buf[hi..], rows + [vs], total)
    ensures |Flatten(rows + [vs])| == hi
  {
    assert (rows + [vs])[..|rows|] == rows;
    assert Flatten(rows + [vs]) == Flatten(rows) + vs;
    assert buf[..lo] == Flatten(rows);
    assert buf[hi..] == Zeros(total - hi);
  }

  /** One parsed data line stored at `offset`: a parse error propagates,
      then the memoryview slot assignment `mv[offset:offset + bpl] = values`
      raises unless the values exactly fill the slot, which is truncated to
      nothing once the buffer is full. */
  method StoreLine(bpl: int, buf: bytes, offset: int, parsed: Result<bytes, LoadError>)
    returns (r: Result<bytes, LoadError>)
    requires bpl >= 1 && 0 <= offset <= |buf|
    requires offset < |buf| ==> offset + bpl <= |buf|
    requires parsed.Ok? ==> |parsed.value| >= 1
    ensures r.Ok? <==> offset < |buf| && parsed.Ok? && |parsed.value| == bpl
    ensures parsed.Err? ==> r == parsed
    ensures parsed.Ok? && r.Err? ==> r.error == WrongLength
    ensures r.Ok? ==> r.value == buf[..offset] + parsed.value + buf[offset + bpl..]
  {
    if parsed.Err? {
      return parsed;
    }
    var lo := PyClamp(offset, |buf|);
    var hi := PyClamp(offset + bpl, |buf|);
    var dest := if lo < hi then hi - lo else 0;
    if |parsed.value| != dest {
      return Err(WrongLength);
    }
    r := Ok(buf[..lo] + parsed.value + buf[hi..]);
  }

  /** The state of the storage loop after the first `i` parsed lines: they
      all fit, as the rows `rows`, which fill `buf` up to `offset`. */
  ghost predicate StoreInv(ps: seq<Result<bytes, LoadError>>, i: int, rows: seq<bytes>,
                           bpl: int, count: int, offset: int, buf: bytes)
  {
    bpl >= 1 && 0 <= i <= |ps| && ParsedAs(ps[..i], rows, bpl) && |rows| <= count
    && offset == |rows| * bpl && |Flatten(rows)| == offset && Laid(buf, rows, bpl * count)
  }

  lemma StoreStart(ps: seq<Result<bytes, LoadError>>, bpl: int, count: int)
    requires bpl >= 1 && count >= 0
    ensures StoreInv(ps, 0, [], bpl, count, 0, Zeros(bpl * count))
  {
    MulLe(0, count, bpl);
    assert ps[..0] == [];
  }

  /** The room left in the buffer, in the terms `StoreLine` uses. */
  lemma StoreRoom(ps: seq<Result<bytes, LoadError>>, i: int, rows: seq<bytes>,
                  bpl: int, count: int, offset: int, buf: bytes)
    requires StoreInv(ps, i, rows, bpl, count, offset, buf)
    ensures |buf| == bpl * count && 0 <= offset <= |buf|
    ensures offset < |buf| <==> |rows| < count
    ensures offset < |buf| ==> offset + bpl <= |buf|
  {
    SlotArith(|rows|, count, bpl);
  }

  /** Storing line `i` keeps the invariant. */
  lemma StoreStep(ps: seq<Result<bytes, LoadError>>, i: int, rows: seq<bytes>,
                  bpl: int, count: int, offset: int, buf: bytes, vs: bytes)
    requires StoreInv(ps, i, rows, bpl, count, offset, buf)
    requires i < |ps| && |rows| < count && ps[i] == Ok(vs) && |vs| == bpl
    ensures StoreInv(ps, i + 1, rows + [vs], bpl, count, offset + bpl,
                     buf[..offset] + vs + buf[offset + bpl..])
  {
    SlotArith(|rows|, count, bpl);
    SlotWrite(rows, vs, bpl * count, buf, offset, offset + bpl);
    ParsedSnoc(ps, i, rows, bpl, vs);
  }

  /** A line that does not fit makes the whole file fail. */
  lemma StoreFails(ps: seq<Result<bytes, LoadError>>, i: int, rows: seq<bytes>,
                   bpl: int, count: int, offset: int, buf: bytes)
    requires StoreInv(ps, i, rows, bpl, count, offset, buf) && i < |ps|
    requires ps[i].Err? || |ps[i].value| != bpl || |rows| >= count
    ensures !AllFit(bpl, count, ps)
  {
    assert ps[..i + 1][..i] == ps[..i];
  }

  /** After the last line, the buffer holds every row. */
  lemma StoreDone(ps: seq<Result<bytes, LoadError>>, rows: seq<bytes>,
                  bpl: int, count: int, offset: int, buf: bytes)
    requires StoreInv(ps, |ps|, rows, bpl, count, offset, buf)
    ensures AllFit(bpl, count, ps)
    ensures |buf| == bpl * count && Holds(buf, bpl, ps)
  {
    assert ps[..|ps|] == ps;
    var total := bpl * count;
    forall k | 0 <= k < |ps|
      ensures ps[k].Ok? && (k + 1) * bpl <= |buf| && Slot(buf, bpl, k) == ps[k].value
    {
      FlattenSlot(rows, bpl, k, Zeros(total - offset));
    }
    ZeroTail(buf, rows, total);
  }

  /** The storage loop of `__load_xglcd_font` over the parsed data lines: a
      buffer of `bpl * count` zero bytes, then each line in order stored in
      the next slot. */
  method StoreRows(bpl: int, count: int, ps: seq<Result<bytes, LoadError>>) returns (r: Result<bytes, LoadError>)
    requires bpl >= 1
    requires forall k :: 0 <= k < |ps| ==> if ps[k].Ok? then |ps[k].value| >= 1 else ps[k].error == BadValue
    ensures r == Err(NegativeSize) <==> count < 0
    ensures r.Ok? <==> count >= 0 && AllFit(bpl, count, ps)
    ensures r.Ok? ==> |r.value| == bpl * count && Holds(r.value, bpl, ps)
  {
    if count < 0 {
      return Err(NegativeSize);
    }
    var buf := Zeros(bpl * count);
    var offset := 0;
    ghost var rows: seq<bytes> := [];
    StoreStart(ps, bpl, count);
    var i := 0;
    while i < |ps|
      invariant StoreInv(ps, i, rows, bpl, count, offset, buf)
    {
      StoreRoom(ps, i, rows, bpl, count, offset, buf);
      var stored := StoreLine(bpl, buf, offset, ps[i]);
      if stored.Err? {
        StoreFails(ps, i, rows, bpl, count, offset, buf);
        return stored;
      }
      StoreStep(ps, i, rows, bpl, count, offset, buf, ps[i].value);
      buf := stored.value;
      offset := offset + bpl;
      rows := rows + [ps[i].value];
      i := i + 1;
    }
    StoreDone(ps, rows, bpl, count, offset, buf);
    r := Ok(buf);
  }

  /** `__load_xglcd_font`. Cleaning and parsing a line cannot raise, so
      cleaning and parsing every line first and then storing the data lines
      in order gives the same outcome as the source's single loop. */
  method LoadLetters(bpl: int, count: int, lines: seq<string>) returns (r: Result<bytes, LoadError>)
    requires bpl >= 1
    ensures r == Err(NegativeSize) <==> count < 0
    ensures r.Ok? <==> count >= 0 && Loadable(bpl, count, DataLines(lines))
    ensures r.Ok? ==> |r.value| == bpl * count && Holds(r.value, bpl, ParseAll(DataLines(lines)))
  {
    var data := DataLines(lines);
    var ps := ParseAll(data);
    ParseAllShape(data);
    r := StoreRows(bpl, count, ps);
    ParseAllFit(bpl, count, data);
  }

  /** Every parse either succeeds with at least one value or reports a bad
      value. */
  lemma ParseAllShape(d: seq<string>)
    ensures forall k :: 0 <= k < |d| ==>
              var p := ParseAll(d)[k];
              if p.Ok? then |p.value| >= 1 else p.error == BadValue
  {
    forall k | 0 <= k < |d| ensures if ParseValues(d[k]).Ok? then |ParseValues(d[k]).value| >= 1 else ParseValues(d[k]).error == BadValue {
      if ParseValues(d[k]).Ok? {
        ParseValuesNonEmpty(d[k]);
      }
    }
  }

  lemma ParseAllFit(bpl: int, count: int, d: seq<string>)
    ensures AllFit(bpl, count, ParseAll(d)) <==> Loadable(bpl, count, d)
  {
  }

  /** The constructor: metrics, then the loaded letters. */
  method New(lines: seq<string>, width: nat, height: int, startLetter: int, letterCount: int)
    returns (r: Result<Font, LoadError>)
    ensures r.Ok? <==> letterCount >= 0 && Loadable(BytesPerLetter(width, Height(height)), letterCount, DataLines(lines))
    ensures r.Ok? ==> Valid(r.value)
    ensures r.Ok? ==> r.value.width == width && r.value.height == Height(height)
                      && r.value.startLetter == startLetter && r.value.letterCount == letterCount
    ensures r.Ok? ==> Holds(r.value.letters, r.value.bytesPerLetter, ParseAll(DataLines(lines)))
  {
    var h := Height(height);
    var bpl := BytesPerLetter(width, h);
    BytesPerLetterPositive(width, h);
    var letters := LoadLetters(bpl, letterCount, lines);
    match letters
    case Err(e) => r := Err(e);
    case Ok(buf) => r := Ok(Font(width, h, startLetter, letterCount, bpl, buf));
  }

  // ---------------------------------------------------------------------
  //  The font-file format, written back
  // ---------------------------------------------------------------------

  function HexDigit(d: int): (c: char)
    requires 0 <= d < 16
    ensures HexDigitValue(c) == Some(d)
    ensures c != '/' && c != ',' && c != 'x' && !IsSpace(c)
  {
    if d < 10 then ('0' as int + d) as char else ('A' as int + d - 10) as char
  }

  /** `0xHH`, as the font creator writes a byte. */
  function HexByte(v: byte): (s: string)
    ensures |s| == 4 && StartsHex(s)
    ensures forall i :: 0 <= i < |s| ==> s[i] != '/' && s[i] != ',' && !IsSpace(s[i])
  {
    "0x" + [HexDigit(v / 16), HexDigit(v % 16)]
  }

  /** The values of one glyph, comma separated. */
  function FormatValues(vs: bytes): (s: string)
    requires |vs| >= 1
    ensures StartsHex(s)
    ensures forall i :: 0 <= i < |s| ==> s[i] != '/'
    ensures !IsSpace(s[|s| - 1]) && s[|s| - 1] != ','
    decreases |vs|
  {
    if |vs| == 1 then HexByte(vs[0]) else HexByte(vs[0]) + ", " + FormatValues(vs[1..])
  }

  /** One data line as the font creator writes it, with a trailing comment. */
  function FormatLine(vs: bytes, comment: string): string
    requires |vs| >= 1
  {
    FormatValues(vs) + ", // " + comment
  }

  /** A whole font file body: one line per glyph. */
  function FormatFile(glyphs: seq<bytes>): (lines: seq<string>)
    requires forall k :: 0 <= k < |glyphs| ==> |glyphs[k]| >= 1
    ensures |lines| == |glyphs|
  {
    seq(|glyphs|, k requires 0 <= k < |glyphs| => FormatLine(glyphs[k], ""))
  }

  lemma {:induction false} StripLeftSpaces(pre: string, s: string)
    requires forall i :: 0 <= i < |pre| ==> IsSpace(pre[i])
    requires s != [] && !IsSpace(s[0])
    ensures StripLeft(pre + s) == s
    decreases |pre|
  {
    if pre != [] {
      assert (pre + s)[0] == pre[0] && IsSpace(pre[0]);
      assert (pre + s)[1..] == pre[1..] + s;
      StripLeftSpaces(pre[1..], s);
    } else {
      assert pre + s == s;
    }
  }

  /** Trailing whitespace is stripped only from the part after the last
      non-space character. */
  lemma {:induction false} StripRightAppend(p: string, q: string, j: int)
    requires 0 <= j < |q| && !IsSpace(q[j])
    ensures StripRight(p + q) == p + StripRight(q)
    decreases |q|
  {
    if IsSpace(q[|q| - 1]) {
      assert (p + q)[..|p + q| - 1] == p + q[..|q| - 1];
      StripRightAppend(p, q[..|q| - 1], j);
    }
  }

  /** A `0x…` token after leading blanks reads back as its byte. */
  lemma HexByteRoundTrip(pre: string, v: byte)
    requires forall i :: 0 <= i < |pre| ==> IsSpace(pre[i])
    ensures ParseHexInt(pre + HexByte(v)) == Some(v)
  {
    var s := HexByte(v);
    StripPadded(pre, s);
    ParseHexByte(v);
  }

  /** Leading blanks before a token without blank ends strip away. */
  lemma StripPadded(pre: string, s: string)
    requires forall i :: 0 <= i < |pre| ==> IsSpace(pre[i])
    requires s != [] && !IsSpace(s[0]) && !IsSpace(s[|s| - 1])
    ensures Strip(pre + s) == s
  {
    StripLeftSpaces(pre, s);
    NoBlankEnds(s);
  }

  lemma ParseHexByte(v: byte)
    ensures HexLiteral(HexByte(v)) == Some(v)
  {
    var s := HexByte(v);
    var hi, lo := HexDigit(v / 16), HexDigit(v % 16);
    assert s == ['0', 'x', hi, lo];
    HexDigitsPair(hi, lo);
  }

  /** A string without blank ends is its own strip. */
  lemma NoBlankEnds(s: string)
    requires s != [] && !IsSpace(s[0]) && !IsSpace(s[|s| - 1])
    ensures StripLeft(s) == s && StripRight(s) == s && Strip(s) == s
  {
  }

  lemma HexDigitsPair(a: char, b: char)
    requires HexDigitValue(a).Some? && HexDigitValue(b).Some?
    ensures HexDigits([a, b]) == Some(16 * HexDigitValue(a).value + HexDigitValue(b).value)
  {
    assert [a, b][..1] == [a];
    assert [a][..0] == [];
    assert HexDigits([a]) == Some(HexDigitValue(a).value);
  }

  /** A line that is one written byte after blanks is that single value. */
  lemma ParseSingle(line: string, pre: string, v: byte)
    requires forall i :: 0 <= i < |pre| ==> IsSpace(pre[i])
    requires line == pre + HexByte(v)
    ensures ParseValues(line) == Ok([v])
  {
    HexByteRoundTrip(pre, v);
    BlankToken(pre, v);
    assert Split(line, ',') == [line];
    var parts := [line];
    assert parts[1..] == [];
    PartsCons(parts, v, []);
    assert [v] + [] == [v];
  }

  /** The first comma separates the first written byte from the rest. */
  lemma ParseCons(line: string, pre: string, v: byte, rest: string, tail: bytes)
    requires forall i :: 0 <= i < |pre| ==> IsSpace(pre[i])
    requires line == (pre + HexByte(v)) + [','] + rest
    requires ParseValues(rest) == Ok(tail)
    ensures ParseValues(line) == Ok([v] + tail)
  {
    HexByteRoundTrip(pre, v);
    BlankToken(pre, v);
    var head := pre + HexByte(v);
    SplitAt(head, rest, ',');
    var parts := [head] + Split(rest, ',');
    assert parts[0] == head && parts[1..] == Split(rest, ',');
    PartsCons(parts, v, tail);
  }

  lemma BlankToken(pre: string, v: byte)
    requires forall i :: 0 <= i < |pre| ==> IsSpace(pre[i])
    ensures ',' !in pre + HexByte(v)
  {
    var s := pre + HexByte(v);
    forall i | 0 <= i < |s| ensures s[i] != ',' {
      if i < |pre| {
        assert s[i] == pre[i];
      } else {
        assert s[i] == HexByte(v)[i - |pre|];
      }
    }
  }

  lemma FormatValuesCons(pre: string, vs: bytes)
    requires |vs| >= 2
    ensures pre + FormatValues(vs) == (pre + HexByte(vs[0])) + [','] + (" " + FormatValues(vs[1..]))
  {
    var a, b := HexByte(vs[0]), FormatValues(vs[1..]);
    assert FormatValues(vs) == a + ", " + b;
    SeparatorShape(pre, a, b);
  }

  lemma SeparatorShape(pre: string, a: string, b: string)
    ensures pre + (a + ", " + b) == (pre + a) + [','] + (" " + b)
  {
  }

  /** The values written by `FormatValues`, after any leading blanks, parse
      back. */
  lemma {:induction false} FormatValuesParse(pre: string, vs: bytes)
    requires |vs| >= 1
    requires forall i :: 0 <= i < |pre| ==> IsSpace(pre[i])
    ensures ParseValues(pre + FormatValues(vs)) == Ok(vs)
    decreases |vs|, 1
  {
    if |vs| == 1 {
      FormatSingleParse(pre, vs);
    } else {
      FormatMoreParse(pre, vs);
    }
  }

  lemma FormatSingleParse(pre: string, vs: bytes)
    requires |vs| == 1
    requires forall i :: 0 <= i < |pre| ==> IsSpace(pre[i])
    ensures ParseValues(pre + FormatValues(vs)) == Ok(vs)
  {
    assert FormatValues(vs) == HexByte(vs[0]);
    ParseSingle(pre + FormatValues(vs), pre, vs[0]);
    assert [vs[0]] == vs;
  }

  lemma {:induction false} FormatMoreParse(pre: string, vs: bytes)
    requires |vs| >= 2
    requires forall i :: 0 <= i < |pre| ==> IsSpace(pre[i])
    ensures ParseValues(pre + FormatValues(vs)) == Ok(vs)
    decreases |vs|, 0
  {
    var line := pre + FormatValues(vs);
    var rest := " " + FormatValues(vs[1..]);
    FormatValuesCons(pre, vs);
    assert forall i :: 0 <= i < |" "| ==> IsSpace(" "[i]);
    FormatValuesParse(" ", vs[1..]);
    ParseCons(line, pre, vs[0], rest, vs[1..]);
    assert [vs[0]] + vs[1..] == vs;
  }

  /** Stripping a formatted line only touches the comment's end. */
  lemma StripFormatted(v: string, comment: string)
    requires StartsHex(v)
    ensures var rq := StripRight("// " + comment);
            |rq| >= 2 && rq[..2] == "//"
            && Strip(v + ", " + ("// " + comment)) == (v + ", ") + rq
  {
    var p := v + ", ";
    var q := "// " + comment;
    assert p[0] == '0' && q[0] == '/';
    StripKeepsFront(p, q);
    CommentKeepsSlashes(comment);
  }

  /** A line whose first characters are not blank, followed by text that
      does not start with a blank, loses only the text's trailing blanks. */
  lemma StripKeepsFront(p: string, q: string)
    requires p != [] && !IsSpace(p[0]) && q != [] && !IsSpace(q[0])
    ensures Strip(p + q) == p + StripRight(q)
  {
    StripRightAppend(p, q, 0);
    var l := p + StripRight(q);
    assert l[0] == p[0];
    assert StripLeft(l) == l;
  }

  lemma CommentKeepsSlashes(comment: string)
    ensures var rq := StripRight("// " + comment);
            |rq| >= 2 && rq[..2] == "//"
  {
    var q := "// " + comment;
    var rq := StripRight(q);
    assert q[0] == '/' && q[1] == '/';
    assert |rq| >= 2;
    assert rq[..2] == q[..2];
  }

  /** The first `//` of a line whose text part has no slash is where the
      comment starts. */
  lemma FindComment(p: string, rq: string)
    requires forall i :: 0 <= i < |p| ==> p[i] != '/'
    requires |rq| >= 2 && rq[..2] == "//"
    ensures Find(p + rq, "//") == |p|
  {
    var l := p + rq;
    assert l[|p|..|p| + 2] == rq[..2];
    assert OccursAt("//", l, |p|);
    forall j | 0 <= j < |p| ensures !OccursAt("//", l, j) {
      assert l[j..j + 2][0] == l[j] == p[j];
    }
  }

  lemma StripValues(v: string)
    requires StartsHex(v) && !IsSpace(v[|v| - 1])
    ensures Strip(v + ", ") == v + ","
  {
    StripRightAppend(v, ", ", 0);
    assert StripRight(", ") == ",";
    assert (v + ",")[0] == '0';
    assert StripLeft(v + ",") == v + ",";
  }

  lemma StartsHexAppend(v: string, w: string)
    requires StartsHex(v)
    ensures StartsHex(v + w)
  {
    assert (v + w)[..2] == v[..2];
  }

  lemma NoSlash(v: string, w: string)
    requires forall i :: 0 <= i < |v| ==> v[i] != '/'
    requires forall i :: 0 <= i < |w| ==> w[i] != '/'
    ensures forall i :: 0 <= i < |v + w| ==> (v + w)[i] != '/'
  {
  }

  /** `CleanLine`, one step at a time. */
  lemma CleanLineIs(line: string, l: string, c: int, l2: string)
    requires l == Strip(line) && StartsHex(l)
    requires c == Find(l, "//") && 0 <= c && l2 == Strip(l[..c])
    ensures CleanLine(line) == Some(DropComma(l2))
  {
  }

  lemma DropCommaAfter(v: string)
    ensures DropComma(v + ",") == v
  {
    assert (v + ",")[..|v|] == v;
  }

  /** The three cleanup steps on a formatted data line: it starts with
      `0x`, its comment starts right after the values and `", "`, and the
      text before the comment strips to the values and one comma. */
  lemma FormatLineSteps(vs: bytes, comment: string)
    requires |vs| >= 1
    ensures var v := FormatValues(vs);
            var l := Strip(FormatLine(vs, comment));
            StartsHex(l) && Find(l, "//") == |v| + 2 && |v| + 2 <= |l|
            && Strip(l[..|v| + 2]) == v + ","
  {
    var v := FormatValues(vs);
    CommentShape(v, comment);
    StripFormatted(v, comment);
    CommentedLine(v, StripRight("// " + comment));
  }

  lemma CommentShape(v: string, comment: string)
    ensures v + ", // " + comment == v + ", " + ("// " + comment)
  {
  }

  /** Values, a `", "` separator and a stripped comment: the line starts
      with a hex value, its first `//` follows the separator, and the text
      before it strips to the values and one comma. */
  lemma CommentedLine(v: string, rq: string)
    requires StartsHex(v) && !IsSpace(v[|v| - 1])
    requires forall i :: 0 <= i < |v| ==> v[i] != '/'
    requires |rq| >= 2 && rq[..2] == "//"
    ensures var l := (v + ", ") + rq;
            StartsHex(l) && Find(l, "//") == |v| + 2 && |v| + 2 <= |l|
            && Strip(l[..|v| + 2]) == v + ","
  {
    StripValues(v);
    var p := v + ", ";
    var l := p + rq;
    StartsHexAppend(v, ", ");
    StartsHexAppend(p, rq);
    NoSlash(v, ", ");
    FindComment(p, rq);
    assert l[..|p|] == p;
  }

  /** A formatted data line cleans to exactly its values. */
  lemma FormatLineClean(vs: bytes, comment: string)
    requires |vs| >= 1
    ensures CleanLine(FormatLine(vs, comment)) == Some(FormatValues(vs))
  {
    var v := FormatValues(vs);
    var line := FormatLine(vs, comment);
    FormatLineSteps(vs, comment);
    var l := Strip(line);
    CleanLineIs(line, l, |v| + 2, v + ",");
    DropCommaAfter(v);
  }

  /** The data lines of a formatted file are its glyphs' value lists. */
  lemma FormatFileData(glyphs: seq<bytes>)
    requires forall k :: 0 <= k < |glyphs| ==> |glyphs[k]| >= 1
    ensures DataLines(FormatFile(glyphs)) == seq(|glyphs|, k requires 0 <= k < |glyphs| => FormatValues(glyphs[k]))
  {
    var cs := CleanAll(FormatFile(glyphs));
    forall k | 0 <= k < |glyphs| ensures cs[k] == Some(FormatValues(glyphs[k])) {
      FormatFileLineCleans(glyphs, k);
    }
    PresentAll(cs);
  }

  lemma FormatFileLineCleans(glyphs: seq<bytes>, k: int)
    requires forall k :: 0 <= k < |glyphs| ==> |glyphs[k]| >= 1
    requires 0 <= k < |glyphs|
    ensures CleanAll(FormatFile(glyphs))[k] == Some(FormatValues(glyphs[k]))
  {
    assert FormatFile(glyphs)[k] == FormatLine(glyphs[k], "");
    FormatLineClean(glyphs[k], "");
  }

  /** Writing glyphs in the file format and reading them back: every data
      line parses to its glyph, so a loader with room for them stores glyph
      `k` in slot `k`. */
  lemma FormatFileLoads(glyphs: seq<bytes>, bpl: int, count: int)
    requires bpl >= 1 && |glyphs| <= count
    requires forall k :: 0 <= k < |glyphs| ==> |glyphs[k]| == bpl
    ensures ParseAll(DataLines(FormatFile(glyphs))) == seq(|glyphs|, k requires 0 <= k < |glyphs| => Ok(glyphs[k]))
    ensures Loadable(bpl, count, DataLines(FormatFile(glyphs)))
  {
    var d := DataLines(FormatFile(glyphs));
    FormatFileData(glyphs);
    ParseFormatted(glyphs, d);
    ParseAllOk(d, glyphs, bpl, count);
  }

  lemma ParseFormatted(glyphs: seq<bytes>, d: seq<string>)
    requires forall k :: 0 <= k < |glyphs| ==> |glyphs[k]| >= 1
    requires d == seq(|glyphs|, k requires 0 <= k < |glyphs| => FormatValues(glyphs[k]))
    ensures forall k :: 0 <= k < |glyphs| ==> ParseValues(d[k]) == Ok(glyphs[k])
  {
    forall k | 0 <= k < |glyphs|
      ensures ParseValues(d[k]) == Ok(glyphs[k])
    {
      assert d[k] == "" + FormatValues(glyphs[k]);
      FormatValuesParse("", glyphs[k]);
    }
  }

  /** Lines that each parse to a `bpl`-byte glyph, no more than `count` of
      them, load. */
  lemma ParseAllOk(d: seq<string>, glyphs: seq<bytes>, bpl: int, count: int)
    requires |d| == |glyphs| <= count
    requires forall k :: 0 <= k < |glyphs| ==> ParseValues(d[k]) == Ok(glyphs[k]) && |glyphs[k]| == bpl
    ensures ParseAll(d) == seq(|glyphs|, k requires 0 <= k < |glyphs| => Ok(glyphs[k]))
    ensures Loadable(bpl, count, d)
  {
  }

  // ---------------------------------------------------------------------
  //  Glyph lookup
  // ---------------------------------------------------------------------

  /** `ord(letter) - start_letter`. */
  function Index(f: Font, letter: char): int
  {
    letter as int - f.startLetter
  }

  /** Which slot Python's slice `letters[idx * bpl:(idx + 1) * bpl]`
      selects, for an index below `letter_count`: the slot itself, or for
      -count..-2 the slot counted from the end; -1 and anything below -count
      give an empty slice. */
  ghost function SlotOf(count: int, idx: int): Option<int>
  {
    if 0 <= idx < count then Some(idx)
    else if -count <= idx <= -2 then Some(count + idx)
    else None
  }

  /** The slice `letters[idx * bpl:(idx + 1) * bpl]` of a valid font is
      the slot `SlotOf` names, or empty where it names none. */
  lemma SliceOfSlot(f: Font, idx: int)
    requires Valid(f) && idx < f.letterCount
    ensures var bpl := f.bytesPerLetter;
            var sl := PySlice(f.letters, idx * bpl, idx * bpl + bpl);
            match SlotOf(f.letterCount, idx)
            case None => sl == []
            case Some(s) => 0 <= s < f.letterCount && 0 <= s * bpl <= (s + 1) * bpl <= |f.letters|
                            && sl == f.letters[s * bpl..(s + 1) * bpl]
  {
    BytesPerLetterPositive(f.width, f.height);
    SlotSlice(f.letters, f.letterCount, f.bytesPerLetter, idx);
  }

  lemma SlotSlice<T>(s: seq<T>, n: int, bpl: int, idx: int)
    requires bpl >= 1 && n >= 0 && |s| == n * bpl && idx < n
    ensures var sl := PySlice(s, idx * bpl, idx * bpl + bpl);
            match SlotOf(n, idx)
            case None => sl == []
            case Some(k) => 0 <= k < n && 0 <= k * bpl <= (k + 1) * bpl <= |s|
                            && sl == s[k * bpl..(k + 1) * bpl]
  {
    if 0 <= idx {
      ClampInside(n, bpl, idx);
    } else if -n <= idx <= -2 {
      ClampFromEnd(n, bpl, idx);
    } else if idx == -1 {
      ClampMinusOne(n, bpl);
    } else {
      ClampBelow(n, bpl, idx);
    }
  }

  lemma ClampInside(n: int, bpl: int, idx: int)
    requires bpl >= 1 && 0 <= idx < n
    ensures PyClamp(idx * bpl, n * bpl) == idx * bpl
    ensures PyClamp(idx * bpl + bpl, n * bpl) == (idx + 1) * bpl
    ensures 0 <= idx * bpl < (idx + 1) * bpl <= n * bpl
  {
    MulLe(idx, idx + 1, bpl);
    MulLe(idx + 1, n, bpl);
  }

  lemma ClampFromEnd(n: int, bpl: int, idx: int)
    requires bpl >= 1 && -n <= idx <= -2
    ensures var k := n + idx;
            PyClamp(idx * bpl, n * bpl) == k * bpl
            && PyClamp(idx * bpl + bpl, n * bpl) == (k + 1) * bpl
            && 0 <= k * bpl < (k + 1) * bpl <= n * bpl
  {
    var k := n + idx;
    assert idx * bpl + n * bpl == k * bpl;
    assert idx * bpl + bpl + n * bpl == (k + 1) * bpl;
    MulLe(0, k, bpl);
    MulLe(k + 1, n, bpl);
    MulLe(1, -(idx + 1), bpl);
  }

  lemma ClampMinusOne(n: int, bpl: int)
    requires bpl >= 1 && n >= 0
    ensures PyClamp(-1 * bpl + bpl, n * bpl) == 0
  {
  }

  lemma ClampBelow(n: int, bpl: int, idx: int)
    requires bpl >= 1 && n >= 0 && idx < -n
    ensures PyClamp(idx * bpl, n * bpl) == 0
    ensures PyClamp(idx * bpl + bpl, n * bpl) == 0
  {
    assert idx * bpl + n * bpl == (n + idx) * bpl;
    assert idx * bpl + bpl + n * bpl == (n + idx + 1) * bpl;
    MulLe(1, -(n + idx), bpl);
    MulLe(0, -(n + idx + 1), bpl);
  }

  datatype GlyphError = IndexError | OverflowError

  /** A glyph's pre-filled pixel buffer and its size. */
  datatype Glyph = Glyph(fill: bytes, width: int, height: int)

  /** `v.to_bytes(2, 'big')`. */
  function BigEndian16(v: int): (b: bytes)
    requires 0 <= v < 65536
    ensures |b| == 2 && (b[0] as int) * 256 + (b[1] as int) == v
  {
    [v / 256, v % 256]
  }

  /** `b * n`. */
  function Repeat(b: bytes, n: nat): (r: bytes)
    requires |b| >= 1
    ensures |r| == |b| * n
    ensures forall i :: 0 <= i < |r| ==> r[i] == b[i % |b|]
    decreases n
  {
    if n == 0 then []
    else
      var rest := Repeat(b, n - 1);
      assert forall i :: |rest| <= i < |rest| + |b| ==> (i - |rest|) == i % |b| by {
        forall i | |rest| <= i < |rest| + |b| ensures (i - |rest|) == i % |b| {
          ModUnique(i, |b|, n - 1, i - |rest|);
        }
      }
      rest + b
  }

  /** The colours accepted by `to_bytes(2, 'big')`. */
  predicate IsWord(v: int)
  {
    0 <= v < 65536
  }

  /** `get_letter`, up to the pixel writes: `(b'', 0, 0)` for an index at or
      past `letter_count`; `IndexError` when the slice is empty;
      `OverflowError` for a colour that is not a 16-bit word (a zero
      background is never converted); otherwise the glyph's width byte, the
      font height, and a buffer of `height * width` background words. */
  function GetLetter(f: Font, letter: char, color: int, background: int): (r: Result<Glyph, GlyphError>)
    requires Valid(f)
    ensures r.Ok? ==> r.value.height == f.height || r.value == Glyph([], 0, 0)
    ensures Index(f, letter) >= f.letterCount ==> r == Ok(Glyph([], 0, 0))
  {
    var idx := Index(f, letter);
    if idx >= f.letterCount then Ok(Glyph([], 0, 0))
    else
      var offset := idx * f.bytesPerLetter;
      var mv := PySlice(f.letters, offset, offset + f.bytesPerLetter);
      if mv == [] then Err(IndexError)
      else
        var w := mv[0];
        MulLe(0, w, f.height);
        var size := f.height * w;
        if background != 0 && !IsWord(background) then Err(OverflowError)
        else
          var fill := if background != 0 then Repeat(BigEndian16(background), size) else Zeros(2 * size);
          if !IsWord(color) then Err(OverflowError)
          else Ok(Glyph(fill, w, f.height))
  }

  /** What `get_letter` answers: nothing for an index at or past the
      count, `IndexError` exactly where the Python slice is empty, an
      `OverflowError` exactly for a colour that `to_bytes(2, 'big')`
      rejects, and otherwise the slot's width byte with a buffer of
      `height * width` background words. */
  lemma GetLetterSpec(f: Font, letter: char, color: int, background: int)
    requires Valid(f)
    ensures var r := GetLetter(f, letter, color, background);
            var idx := Index(f, letter);
            (idx >= f.letterCount ==> r == Ok(Glyph([], 0, 0)))
            && (idx < f.letterCount && SlotOf(f.letterCount, idx).None? ==> r == Err(IndexError))
            && (idx < f.letterCount && SlotOf(f.letterCount, idx).Some? ==>
                  var s := SlotOf(f.letterCount, idx).value;
                  0 <= s * f.bytesPerLetter < |f.letters|
                  && (r.Ok? <==> IsWord(color) && (background == 0 || IsWord(background)))
                  && (r.Err? ==> r.error == OverflowError)
                  && (r.Ok? ==> r.value.width == f.letters[s * f.bytesPerLetter]
                                && r.value.height == f.height
                                && FilledWith(r.value.fill, if background == 0 then 0 else background,
                                              f.height * r.value.width)))
  {
    var idx := Index(f, letter);
    if idx < f.letterCount {
      SliceOfSlot(f, idx);
      BytesPerLetterPositive(f.width, f.height);
      var r := GetLetter(f, letter, color, background);
      if r.Ok? && SlotOf(f.letterCount, idx).Some? {
        var w := r.value.width;
        var size := f.height * w;
        if background != 0 {
          RepeatFilled(background, size);
        } else {
          ZerosFilled(size);
        }
      }
    }
  }

  /** `fill` is `n` copies of the big-endian 16-bit word `v`. */
  ghost predicate FilledWith(fill: bytes, v: int, n: int)
  {
    |fill| == 2 * n
    && forall i :: 0 <= i < |fill| ==> fill[i] == (if i % 2 == 0 then v / 256 else v % 256)
  }

  lemma RepeatFilled(v: int, n: nat)
    requires IsWord(v)
    ensures FilledWith(Repeat(BigEndian16(v), n), v, n)
  {
  }

  lemma ZerosFilled(n: nat)
    ensures FilledWith(Zeros(2 * n), 0, n)
  {
  }

  /** The lookup with the lower bound the guard evidently intends: a
      letter before `start_letter` is not in the font either. */
  function GetLetterChecked(f: Font, letter: char, color: int, background: int): (r: Result<Glyph, GlyphError>)
    requires Valid(f)
    ensures !(0 <= Index(f, letter) < f.letterCount) ==> r == Ok(Glyph([], 0, 0))
    ensures 0 <= Index(f, letter) < f.letterCount ==>
              r.Err? == !(IsWord(color) && IsWord(background))
              && (r.Err? ==> r.error == OverflowError)
              && (r.Ok? ==> var s := Index(f, letter);
                            0 <= s * f.bytesPerLetter < |f.letters|
                            && r.value.width == f.letters[s * f.bytesPerLetter])
  {
    if Index(f, letter) < 0 then Ok(Glyph([], 0, 0))
    else
      GetLetterSpec(f, letter, color, background);
      GetLetter(f, letter, color, background)
  }

  /** With the range check, a letter whose glyph is drawn reads its own
      slot, so two distinct drawn letters never share a slot, and the glyph
      is the one the unchecked lookup finds there. */
  lemma CheckedNeverAliases(f: Font, a: char, b: char, color: int, background: int)
    requires Valid(f) && a != b
    requires GetLetterChecked(f, a, color, background).Ok? && GetLetterChecked(f, a, color, background).value.width != 0
    requires GetLetterChecked(f, b, color, background).Ok? && GetLetterChecked(f, b, color, background).value.width != 0
    ensures 0 <= Index(f, a) < f.letterCount && 0 <= Index(f, b) < f.letterCount
    ensures SlotOf(f.letterCount, Index(f, a)) == Some(Index(f, a))
    ensures SlotOf(f.letterCount, Index(f, b)) == Some(Index(f, b))
    ensures SlotOf(f.letterCount, Index(f, a)) != SlotOf(f.letterCount, Index(f, b))
    ensures GetLetterChecked(f, a, color, background) == GetLetter(f, a, color, background)
  {
  }

  /** As written, a newline in the default 32..127 font is looked up in
      slot 74 and comes back as the glyph of `j`. */
  lemma NewlineDrawsAsJ(f: Font, color: int, background: int)
    requires Valid(f) && f.startLetter == 32 && f.letterCount == 96
    ensures SlotOf(f.letterCount, Index(f, '\n')) == SlotOf(f.letterCount, Index(f, 'j')) == Some(74)
    ensures GetLetter(f, '\n', color, background) == GetLetter(f, 'j', color, background)
    ensures GetLetterChecked(f, '\n', color, background) == Ok(Glyph([], 0, 0))
  {
    assert Index(f, '\n') == -22 && Index(f, 'j') == 74;
    assert SlotOf(f.letterCount, -22) == Some(74);
  }

  // ---------------------------------------------------------------------
  //  measure_text
  // ---------------------------------------------------------------------

  /** `self.letters[offset] + spacing` for one letter; no bounds guard, so
      an index past the font raises and a negative one counts from the
      end. */
  function Advance(f: Font, c: char, spacing: int): Result<int, GlyphError>
  {
    match PyIndex(f.letters, Index(f, c) * f.bytesPerLetter)
    case None => Err(IndexError)
    case Some(w) => Ok(w + spacing)
  }

  /** The reference sum over the letters, first error wins. */
  function MeasureRef(f: Font, text: string, spacing: int): (r: Result<int, GlyphError>)
    ensures r.Ok? <==> forall i :: 0 <= i < |text| ==> Advance(f, text[i], spacing).Ok?
    ensures r.Err? ==> r.error == IndexError
    decreases |text|
  {
    if text == [] then Ok(0)
    else
      var init := text[..|text| - 1];
      assert forall i :: 0 <= i < |init| ==> init[i] == text[i];
      match MeasureRef(f, init, spacing)
      case Err(e) => Err(e)
      case Ok(n) =>
        match Advance(f, text[|text| - 1], spacing)
        case Err(e) => Err(e)
        case Ok(a) => Ok(n + a)
  }

  /** `measure_text`: the loop over the letters. */
  method MeasureText(f: Font, text: string, spacing: int) returns (r: Result<int, GlyphError>)
    ensures r == MeasureRef(f, text, spacing)
  {
    var length := 0;
    var i := 0;
    while i < |text|
      invariant 0 <= i <= |text|
      invariant MeasureRef(f, text[..i], spacing) == Ok(length)
    {
      assert text[..i + 1][..i] == text[..i];
      var letterOrd := text[i] as int - f.startLetter;
      var offset := letterOrd * f.bytesPerLetter;
      var w := PyIndex(f.letters, offset);
      if w.None? {
        assert Advance(f, text[..i + 1][i], spacing).Err?;
        return Err(IndexError);
      }
      length := length + w.value + spacing;
      i := i + 1;
    }
    assert text[..i] == text;
    r := Ok(length);
  }

  /** Measuring a concatenation adds the two measures. */
  lemma {:induction false} MeasureAppend(f: Font, a: string, b: string, spacing: int)
    requires MeasureRef(f, a, spacing).Ok? && MeasureRef(f, b, spacing).Ok?
    ensures MeasureRef(f, a + b, spacing) == Ok(MeasureRef(f, a, spacing).value + MeasureRef(f, b, spacing).value)
    decreases |b|
  {
    if b == [] {
      assert a + b == a;
    } else {
      var b' := b[..|b| - 1];
      assert (a + b)[..|a + b| - 1] == a + b';
      MeasureAppend(f, a, b', spacing);
    }
  }

  /** For letters inside the font, each letter advances by the width that
      `get_letter` reports for it, plus the spacing. */
  lemma MeasureMatchesGlyph(f: Font, c: char, spacing: int)
    requires Valid(f) && 0 <= Index(f, c) < f.letterCount
    ensures GetLetter(f, c, 0, 0).Ok?
    ensures MeasureRef(f, [c], spacing) == Ok(GetLetter(f, c, 0, 0).value.width + spacing)
  {
    assert [c][..0] == [];
    BytesPerLetterPositive(f.width, f.height);
    MulLe(Index(f, c) + 1, f.letterCount, f.bytesPerLetter);
    MulLe(Index(f, c), Index(f, c) + 1, f.bytesPerLetter);
  }
}

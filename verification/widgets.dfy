/** Layout arithmetic of src/central/ui/widgets.py: `get_page` tiles the
    320×240 landscape screen with equal-width cards, the last one taking the
    leftover pixels; a card centres its lines of text horizontally and
    vertically and draws an outline padded by 5 pixels; coordinates are
    turned to the panel's portrait frame before drawing. */
module Widgets {
  import opened Common
  import opened UiCore
  import Font

  const DISP_WIDTH: int := 320
  const DISP_HEIGHT: int := 240
  const LETTER_SPACING: int := 1
  const LINE_SPACING: int := 2
  const PADDING_X: int := 5
  const PADDING_Y: int := 5
  const BACK_WIDTH: int := 80
  const BACK_HEIGHT: int := 30
  const WHITE: int := 0xFFFF
  const BLACK: int := 0x0000

  datatype WidgetError = ValueError

  // ---------------------------------------------------------------------
  //  Cards, the back button and get_page
  // ---------------------------------------------------------------------

  /** `Card(...)`: a selectable component without a callback. */
  function NewCard(nextPage: int, b: Box, lines: seq<Line>): Component
  {
    Component(nextPage, true, false, Card(b, lines))
  }

  /** `BackButton()`: an 80×30 card in the bottom-left corner, labelled
      "Back", whose selection goes back instead of to page 0. */
  function NewBackButton(): (c: Component)
    ensures c.kind.BackButton? && c.nextPage == 0 && c.selectable && !c.hasOnSelect
    ensures c.kind.box.x == 0 && c.kind.box.y + c.kind.box.height == DISP_HEIGHT
    ensures c.kind.box.width == 80 && c.kind.box.height == 30
  {
    Component(0, true, false, BackButton(Box(0, DISP_HEIGHT - BACK_HEIGHT, BACK_WIDTH, BACK_HEIGHT), [Plain("Back")]))
  }

  /** Left edge of card `i` of `n`. */
  function TileX(i: int, n: int): int
    requires n > 0
  {
    i * (DISP_WIDTH / n)
  }

  /** Width of card `i` of `n`: the base width, except that the last card
      runs to the right edge of the screen. */
  function TileWidth(i: int, n: int): int
    requires n > 0
  {
    if i == n - 1 then DISP_WIDTH - TileX(i, n) else DISP_WIDTH / n
  }

  /** The card `get_page` builds for entry `i`. */
  function TileCard(info: seq<(int, seq<Line>)>, i: int, height: int): Component
    requires 0 <= i < |info|
  {
    NewCard(info[i].0, Box(TileX(i, |info|), 0, TileWidth(i, |info|), height), info[i].1)
  }

  /** `get_page`: an empty card list raises `ValueError`; otherwise one card
      per entry, in order, spanning the usable height (30 pixels less when a
      back button is added), followed by the back button if requested. The
      page itself is not selectable. */
  method GetPage(info: seq<(int, seq<Line>)>, withBack: bool) returns (r: Result<Page, WidgetError>)
    ensures r.Err? <==> |info| == 0
    ensures r.Ok? ==>
              var es := r.value.elements;
              r.value == NewPage(es, false)
              && |es| == |info| + (if withBack then 1 else 0)
              && (forall i :: 0 <= i < |info| ==>
                    es[i].kind.Card? && es[i].nextPage == info[i].0 && es[i].kind.lines == info[i].1
                    && es[i].selectable && !es[i].hasOnSelect
                    && es[i].kind.box.y == 0
                    && es[i].kind.box.height == (if withBack then DISP_HEIGHT - BACK_HEIGHT else DISP_HEIGHT))
              && (forall i :: 0 <= i < |info| ==> es[i].kind.box == TileBox(|info|, i, es[i].kind.box.height))
              && (withBack ==> es[|es| - 1] == NewBackButton())
  {
    if |info| == 0 {
      return Err(ValueError);
    }
    var usable := DISP_HEIGHT - (if withBack then BACK_HEIGHT else 0);
    var n := |info|;
    var baseWidth := DISP_WIDTH / n;
    var components: seq<Component> := [];
    var idx := 0;
    while idx < n
      invariant 0 <= idx <= n
      invariant |components| == idx
      invariant forall i :: 0 <= i < idx ==> components[i] == TileCard(info, i, usable)
    {
      var x := idx * baseWidth;
      var width := if idx == n - 1 then DISP_WIDTH - x else baseWidth;
      components := components + [NewCard(info[idx].0, Box(x, 0, width, usable), info[idx].1)];
      idx := idx + 1;
    }
    if withBack {
      components := components + [NewBackButton()];
    }
    r := Ok(NewPage(components, false));
  }

  /** The box of card `i` of `n` at a given height. */
  function TileBox(n: int, i: int, height: int): Box
    requires n > 0
  {
    Box(TileX(i, n), 0, TileWidth(i, n), height)
  }

  /** The tiling has no gaps and no overlaps: the first card starts at the
      left edge, each card starts where the previous one ends, and the last
      ends at the right edge. All cards but the last share the base width;
      the last takes the remainder too. */
  lemma TilesAreContiguous(n: int)
    requires n > 0
    ensures TileX(0, n) == 0
    ensures forall i :: 0 <= i < n - 1 ==> TileX(i + 1, n) == TileX(i, n) + TileWidth(i, n)
    ensures TileX(n - 1, n) + TileWidth(n - 1, n) == DISP_WIDTH
    ensures TileWidth(n - 1, n) == DISP_WIDTH / n + DISP_WIDTH % n
  {
    assert forall i :: TileX(i + 1, n) == TileX(i, n) + DISP_WIDTH / n by {
      forall i ensures TileX(i + 1, n) == TileX(i, n) + DISP_WIDTH / n {
        assert (i + 1) * (DISP_WIDTH / n) == i * (DISP_WIDTH / n) + DISP_WIDTH / n;
      }
    }
    assert (n - 1) * (DISP_WIDTH / n) == n * (DISP_WIDTH / n) - DISP_WIDTH / n;
  }

  /** Sum of the widths of the first `k` tiles. */
  function TiledWidth(n: int, k: int): int
    requires n > 0 && 0 <= k <= n
    decreases k
  {
    if k == 0 then 0 else TiledWidth(n, k - 1) + TileWidth(k - 1, n)
  }

  /** The first `k` tiles cover exactly the span up to the left edge of
      tile `k`. */
  lemma {:induction false} TiledWidthIsEdge(n: int, k: int)
    requires n > 0 && 0 <= k < n
    ensures TiledWidth(n, k) == TileX(k, n)
    decreases k
  {
    if k > 0 {
      TiledWidthIsEdge(n, k - 1);
      TilesAreContiguous(n);
      assert TileX(k, n) == TileX(k - 1, n) + TileWidth(k - 1, n);
    }
  }

  /** The card widths add up to the screen width. */
  lemma TilesFillScreen(n: int)
    requires n > 0
    ensures TiledWidth(n, n) == DISP_WIDTH
  {
    TiledWidthIsEdge(n, n - 1);
    TilesAreContiguous(n);
  }

  /** Every card is at least one pixel wide exactly when there are at most
      320 of them; beyond that all but the last are empty. */
  lemma TilesNonEmpty(n: int)
    requires n > 0
    ensures (forall i :: 0 <= i < n ==> TileWidth(i, n) >= 1) <==> n <= DISP_WIDTH
  {
    TilesAreContiguous(n);
    if n > DISP_WIDTH {
      assert DISP_WIDTH / n == 0;
      assert TileWidth(0, n) == 0 || n == 1;
    }
  }

  // ---------------------------------------------------------------------
  //  Portrait coordinates
  // ---------------------------------------------------------------------

  /** `_get_as_portrait`: landscape `(x, y)` to the panel's portrait
      frame; `(-1, -1)` when no router is attached. */
  function AsPortrait(attached: bool, x: int, y: int): (r: (int, int))
    ensures !attached ==> r == (-1, -1)
    ensures attached ==> FromPortrait(r) == (x, y)
  {
    if attached then (y, DISP_WIDTH - x) else (-1, -1)
  }

  /** The landscape point a portrait point shows. */
  function FromPortrait(p: (int, int)): (int, int)
  {
    (DISP_WIDTH - p.1, p.0)
  }

  /** With a router attached the conversion maps the landscape screen
      onto the portrait one. */
  lemma PortraitOnScreen(x: int, y: int)
    ensures 0 <= x <= DISP_WIDTH && 0 <= y <= DISP_HEIGHT ==>
              var p := AsPortrait(true, x, y);
              0 <= p.0 <= DISP_HEIGHT && 0 <= p.1 <= DISP_WIDTH
  {
  }

  // ---------------------------------------------------------------------
  //  Card.display
  // ---------------------------------------------------------------------

  /** `str.upper()` on ASCII letters. */
  function Upper(s: string): (r: string)
    ensures |r| == |s|
    ensures forall i :: 0 <= i < |s| ==>
              r[i] == (if 'a' <= s[i] <= 'z' then (s[i] as int - 32) as char else s[i])
    decreases |s|
  {
    if s == [] then []
    else
      var c := if 'a' <= s[0] <= 'z' then (s[0] as int - 32) as char else s[0];
      [c] + Upper(s[1..])
  }

  /** `"".join(parts)`. */
  function Concat(parts: seq<string>): string
    decreases |parts|
  {
    if parts == [] then [] else parts[0] + Concat(parts[1..])
  }

  /** The text drawn for one line. */
  function Clean(l: Line): string
  {
    match l
    case Plain(s) => Upper(s)
    case Joined(ps) => Upper(Concat(ps))
  }

  /** `measure_text(clean, 1) - 1` for one line. */
  function LineWidth(f: Font.Font, l: Line): (r: Result<int, Font.GlyphError>)
    ensures r.Ok? <==> Font.MeasureRef(f, Clean(l), LETTER_SPACING).Ok?
    ensures r.Ok? ==> r.value == Font.MeasureRef(f, Clean(l), LETTER_SPACING).value - LETTER_SPACING
  {
    match Font.MeasureRef(f, Clean(l), LETTER_SPACING)
    case Err(e) => Err(e)
    case Ok(w) => Ok(w - LETTER_SPACING)
  }

  /** The width of every line, the first failing measurement raising. */
  function LineWidths(f: Font.Font, lines: seq<Line>): (r: Result<seq<int>, Font.GlyphError>)
    ensures r.Ok? <==> forall i :: 0 <= i < |lines| ==> LineWidth(f, lines[i]).Ok?
    ensures r.Ok? ==> |r.value| == |lines|
                      && forall i :: 0 <= i < |lines| ==> r.value[i] == LineWidth(f, lines[i]).value
    decreases |lines|
  {
    if lines == [] then Ok([])
    else
      match LineWidth(f, lines[0])
      case Err(e) => Err(e)
      case Ok(w) =>
        var rest := LineWidths(f, lines[1..]);
        assert forall i :: 1 <= i < |lines| ==> lines[i] == lines[1..][i - 1];
        match rest
        case Err(e) => Err(e)
        case Ok(ws) => Ok([w] + ws)
  }

  /** The running `max` of the loop, starting from `m`. */
  function MaxFrom(m: int, ws: seq<int>): (r: int)
    ensures r >= m && forall i :: 0 <= i < |ws| ==> ws[i] <= r
    ensures r == m || exists i :: 0 <= i < |ws| && ws[i] == r
    decreases |ws|
  {
    if ws == [] then m
    else
      var r := MaxFrom(if ws[0] > m then ws[0] else m, ws[1..]);
      assert forall i :: 1 <= i < |ws| ==> ws[i] == ws[1..][i - 1];
      assert r != m && r != ws[0] ==> exists i :: 1 <= i < |ws| && ws[i] == r by {
        if r != m && r != ws[0] {
          var j :| 0 <= j < |ws[1..]| && ws[1..][j] == r;
          assert ws[j + 1] == r;
        }
      }
      r
  }

  /** The running `min` of the loop, starting from `m`. */
  function MinFrom(m: int, xs: seq<int>): (r: int)
    ensures r <= m && forall i :: 0 <= i < |xs| ==> r <= xs[i]
    ensures r == m || exists i :: 0 <= i < |xs| && xs[i] == r
    decreases |xs|
  {
    if xs == [] then m
    else
      var r := MinFrom(if xs[0] < m then xs[0] else m, xs[1..]);
      assert forall i :: 1 <= i < |xs| ==> xs[i] == xs[1..][i - 1];
      assert r != m && r != xs[0] ==> exists i :: 1 <= i < |xs| && xs[i] == r by {
        if r != m && r != xs[0] {
          var j :| 0 <= j < |xs[1..]| && xs[1..][j] == r;
          assert xs[j + 1] == r;
        }
      }
      r
  }

  /** One `draw_text` call: portrait position and text. */
  datatype TextAt = TextAt(x: int, y: int, text: string)

  /** The `draw_rectangle` call: portrait corner, height, width, colour. */
  datatype Outline = Outline(x: int, y: int, height: int, width: int, color: int)

  datatype Drawing = Drawing(texts: seq<TextAt>, outline: Outline)

  /** Distance between the tops of consecutive lines. */
  function LineHeight(f: Font.Font): int
  {
    f.height + LINE_SPACING
  }

  /** Height of the block of lines: no spacing after the last one. */
  function TextHeight(f: Font.Font, n: int): int
  {
    n * LineHeight(f) - LINE_SPACING
  }

  /** Top of the first line: the block centred in the card. */
  function StartY(f: Font.Font, b: Box, n: int): int
  {
    b.y + FloorDiv(b.height - TextHeight(f, n), 2)
  }

  /** Left end of a line of width `w`: the line centred in the card. */
  function StartX(b: Box, w: int): int
  {
    b.x + FloorDiv(b.width - w, 2)
  }

  /** The `draw_text` calls: line `i` at its centred left end, one line
      height below the previous one, in portrait coordinates. */
  function Texts(f: Font.Font, b: Box, lines: seq<Line>, ws: seq<int>): (ts: seq<TextAt>)
    requires |ws| == |lines|
    ensures |ts| == |lines|
    ensures forall i :: 0 <= i < |lines| ==>
              FromPortrait((ts[i].x, ts[i].y)) == (StartX(b, ws[i]), StartY(f, b, |lines|) + i * LineHeight(f))
              && ts[i].text == Clean(lines[i])
  {
    seq(|lines|, i requires 0 <= i < |lines| =>
      var p := AsPortrait(true, StartX(b, ws[i]), StartY(f, b, |lines|) + i * LineHeight(f));
      TextAt(p.0, p.1, Clean(lines[i])))
  }

  /** The left ends of the lines. */
  function Starts(b: Box, ws: seq<int>): (xs: seq<int>)
    ensures |xs| == |ws| && forall i :: 0 <= i < |ws| ==> xs[i] == StartX(b, ws[i])
  {
    seq(|ws|, i requires 0 <= i < |ws| => StartX(b, ws[i]))
  }

  /** The outline: as wide as the widest line and as tall as the text
      block, plus the padding on both sides, its corner turned to portrait
      from the right end of the outline's top edge. */
  function CardOutline(f: Font.Font, b: Box, n: int, ws: seq<int>, focused: bool): (o: Outline)
    ensures o.width == MaxFrom(0, ws) + 2 * PADDING_X
    ensures o.height == TextHeight(f, n) + 2 * PADDING_Y
    ensures o.color == (if focused then WHITE else BLACK)
    ensures FromPortrait((o.x, o.y)) == (MinFrom(DISP_WIDTH, Starts(b, ws)) - PADDING_X + o.width, StartY(f, b, n) - PADDING_Y)
  {
    var cardWidth := MaxFrom(0, ws) + 2 * PADDING_X;
    var cardHeight := TextHeight(f, n) + 2 * PADDING_Y;
    var corner := AsPortrait(true, MinFrom(DISP_WIDTH, Starts(b, ws)) - PADDING_X + cardWidth, StartY(f, b, n) - PADDING_Y);
    Outline(corner.0, corner.1, cardHeight, cardWidth, if focused then WHITE else BLACK)
  }

  /** `Card.display`: with a router attached, one `draw_text` per line,
      then the outline; a line the font cannot measure raises; without a
      router nothing is drawn. */
  function CardDisplay(f: Font.Font, b: Box, lines: seq<Line>, attached: bool, focused: bool)
    : (r: Result<Option<Drawing>, Font.GlyphError>)
    ensures !attached ==> r == Ok(None)
    ensures attached ==> (r.Ok? <==> LineWidths(f, lines).Ok?)
    ensures attached && r.Ok? ==>
              var ws := LineWidths(f, lines).value;
              r.value == Some(Drawing(Texts(f, b, lines, ws), CardOutline(f, b, |lines|, ws, focused)))
  {
    if !attached then Ok(None)
    else
      match LineWidths(f, lines)
      case Err(e) => Err(e)
      case Ok(ws) => Ok(Some(Drawing(Texts(f, b, lines, ws), CardOutline(f, b, |lines|, ws, focused))))
  }

  /** Centring: the space left of a line and the space right of it differ
      by at most one pixel, the extra pixel going to the right. */
  lemma CentredHorizontally(b: Box, w: int)
    ensures var left := StartX(b, w) - b.x;
            var right := b.x + b.width - (StartX(b, w) + w);
            0 <= right - left <= 1
  {
  }

  /** The same for the block of lines inside the card's height. */
  lemma CentredVertically(f: Font.Font, b: Box, n: int)
    ensures var top := StartY(f, b, n) - b.y;
            var bottom := b.y + b.height - (StartY(f, b, n) + TextHeight(f, n));
            0 <= bottom - top <= 1
  {
  }

  /** A wider line never starts further right or ends further left. */
  lemma WiderSpansFurther(b: Box, w: int, v: int)
    requires w <= v
    ensures StartX(b, v) <= StartX(b, w)
    ensures StartX(b, w) + w <= StartX(b, v) + v
  {
    assert FloorDiv(b.width - v, 2) <= FloorDiv(b.width - w, 2);
    assert (b.width - w) / 2 + w <= (b.width - v) / 2 + v by {
      DivHalfShift(b.width - v, v - w);
    }
  }

  /** Taking `d` off the dividend takes at most `d` off its half. */
  lemma DivHalfShift(a: int, d: int)
    requires d >= 0
    ensures (a + d) / 2 <= a / 2 + d
  {
  }

  /** The outline encloses every line with the padding to spare, provided
      the card lies on the screen and no line is empty: its left side lies
      `PADDING_X` left of the leftmost line start and its right side
      `PADDING_X` right of every line end. */
  lemma OutlineEnclosesLines(b: Box, ws: seq<int>)
    requires |ws| >= 1 && forall i :: 0 <= i < |ws| ==> ws[i] >= 0
    requires 0 <= b.width && b.x + b.width <= DISP_WIDTH
    ensures var xs := Starts(b, ws);
            var minX := MinFrom(DISP_WIDTH, xs);
            var right := minX - PADDING_X + (MaxFrom(0, ws) + 2 * PADDING_X);
            forall i :: 0 <= i < |ws| ==> minX <= xs[i] && xs[i] + ws[i] + PADDING_X <= right
  {
    var xs := Starts(b, ws);
    var m := MaxFrom(0, ws);
    var k :| 0 <= k < |ws| && ws[k] == m;
    var minX := MinFrom(DISP_WIDTH, xs);
    assert xs[k] <= DISP_WIDTH;
    forall i | 0 <= i < |ws|
      ensures xs[i] + ws[i] <= minX + m
    {
      WiderSpansFurther(b, ws[i], m);
      if minX != DISP_WIDTH {
        var j :| 0 <= j < |xs| && xs[j] == minX;
        WiderSpansFurther(b, ws[j], m);
        assert xs[k] <= xs[j];
      }
    }
  }
}

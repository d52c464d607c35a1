/** The navigation core of src/central/ui/core.py: a `Router` keeping a
    history stack of page indices, `Page`s with a focused and a selected
    element, and `Component.select`, which trims the history back to a page
    already visited before showing it again. Pages and the router refer to
    each other in the source; here the router is its history plus the page
    count, and whether a router is attached is a flag. */
module UiCore {
  import opened Common

  /** A landscape rectangle: top-left corner and size in pixels. */
  datatype Box = Box(x: int, y: int, width: int, height: int)

  /** A card line: a string, or a list of strings joined without separator. */
  datatype Line = Plain(text: string) | Joined(parts: seq<string>)

  /** What kind of widget a component is; it decides what `select` does. */
  datatype Kind =
    | Generic
    | Card(box: Box, lines: seq<Line>)
    | BackButton(box: Box, lines: seq<Line>)

  datatype Component = Component(nextPage: int, selectable: bool, hasOnSelect: bool, kind: Kind)

  datatype Page = Page(elements: seq<Component>, selectable: bool, focus: int, selected: int)

  datatype UiError = IndexError | ZeroDivisionError

  // ---------------------------------------------------------------------
  //  Router
  // ---------------------------------------------------------------------

  /** `Router.__init__`: the history starts at page 0. */
  function NewHistory(): (h: seq<int>)
    ensures |h| == 1 && h[0] == 0
  {
    [0]
  }

  /** What every router operation keeps: the history is never empty, its
      bottom entry is the start page, and every later entry is a page
      index that `show_page` accepted. */
  ghost predicate HistoryOk(h: seq<int>, pageCount: nat)
  {
    |h| >= 1 && h[0] == 0 && forall i :: 1 <= i < |h| ==> 0 <= h[i] < pageCount
  }

  /** `show_page`: an index outside the page list raises `IndexError` and
      leaves the history alone; any other index is pushed. */
  function ShowPage(h: seq<int>, pageCount: nat, page: int): (r: Result<seq<int>, UiError>)
    ensures r.Err? <==> page < 0 || page >= pageCount
    ensures r.Err? ==> r.error == IndexError
    ensures r.Ok? ==> |r.value| == |h| + 1 && r.value[..|h|] == h && r.value[|h|] == page
  {
    if page < 0 || page >= pageCount then Err(IndexError) else Ok(h + [page])
  }

  /** `go_back`: pops the newest entry unless it is the only one. */
  function GoBack(h: seq<int>): (r: seq<int>)
    ensures |h| <= 1 ==> r == h
    ensures |h| > 1 ==> |r| == |h| - 1 && r == h[..|h| - 1]
  {
    if |h| <= 1 then h else h[..|h| - 1]
  }

  /** Going back undoes a successful `show_page`. */
  lemma GoBackUndoesShow(h: seq<int>, pageCount: nat, page: int)
    requires |h| >= 1 && ShowPage(h, pageCount, page).Ok?
    ensures GoBack(ShowPage(h, pageCount, page).value) == h
  {
    assert (h + [page])[..|h|] == h;
  }

  lemma ShowPreservesHistoryOk(h: seq<int>, pageCount: nat, page: int)
    requires HistoryOk(h, pageCount) && ShowPage(h, pageCount, page).Ok?
    ensures HistoryOk(ShowPage(h, pageCount, page).value, pageCount)
  {
  }

  lemma GoBackPreservesHistoryOk(h: seq<int>, pageCount: nat)
    requires HistoryOk(h, pageCount)
    ensures HistoryOk(GoBack(h), pageCount)
  {
  }

  /** `current_page`: `pages[history[-1]]`, with Python's negative indexing
      and `IndexError`. */
  function CurrentPage(h: seq<int>, pages: seq<Page>): (r: Option<Page>)
    ensures |h| >= 1 && 0 <= h[|h| - 1] < |pages| ==> r == Some(pages[h[|h| - 1]])
    ensures |h| == 0 ==> r.None?
  {
    match PyIndex(h, -1)
    case None => None
    case Some(i) => PyIndex(pages, i)
  }

  /** A history the router keeps always names a real page, once the router
      has at least one page. */
  lemma CurrentPageExists(h: seq<int>, pages: seq<Page>)
    requires HistoryOk(h, |pages|) && |pages| >= 1
    ensures CurrentPage(h, pages).Some?
  {
  }

  // ---------------------------------------------------------------------
  //  Component.select
  // ---------------------------------------------------------------------

  /** The loop of `Component.select`: pop while the target page is still in
      the history and more than one entry is left. */
  function PopWhile(h: seq<int>, page: int): (r: seq<int>)
    ensures |r| <= |h| && r == h[..|r|]
    ensures |h| >= 1 ==> |r| >= 1
    ensures page in r ==> |r| <= 1
    decreases |h|
  {
    if page in h && |h| > 1 then PopWhile(h[..|h| - 1], page) else h
  }

  /** The loop stops at the first moment it may: every longer prefix still
      contained the page and had more than one entry. */
  lemma {:induction false} PopWhileStopsEarliest(h: seq<int>, page: int, k: int)
    requires |PopWhile(h, page)| < k <= |h|
    ensures page in h[..k] && k > 1
    decreases |h|
  {
    if page in h && |h| > 1 {
      if k < |h| {
        PopWhileStopsEarliest(h[..|h| - 1], page, k);
        assert h[..|h| - 1][..k] == h[..k];
      } else {
        assert h[..k] == h;
      }
    }
  }

  /** The loop in closed form: it cuts the history just before the first
      visit of the page, but never below one entry. */
  lemma {:induction false} PopWhileCutsAtFirstVisit(h: seq<int>, page: int, j: int)
    requires 0 <= j < |h| && h[j] == page && page !in h[..j]
    ensures PopWhile(h, page) == h[..if j == 0 then 1 else j]
    decreases |h|
  {
    var cut := if j == 0 then 1 else j;
    if |h| > 1 {
      var h' := h[..|h| - 1];
      if j < |h| - 1 {
        assert h'[j] == page && h'[..j] == h[..j];
        PopWhileCutsAtFirstVisit(h', page, j);
        assert h'[..cut] == h[..cut];
      } else {
        assert h' == h[..j];
        PopWhileUnvisited(h', page);
      }
    } else {
      assert h[..1] == h;
    }
  }

  /** A page not in the history leaves it untouched. */
  lemma PopWhileUnvisited(h: seq<int>, page: int)
    requires page !in h
    ensures PopWhile(h, page) == h
  {
  }

  /** What `select` did: the new history, whether `show_page` raised, and
      whether the `on_select` callback ran. */
  datatype Selection = Selection(history: seq<int>, raised: bool, calledBack: bool)

  /** `Component.select` (and the `BackButton.select` override). Without a
      router nothing happens. A back button goes back. Any other component
      trims the history, then shows its page; `on_select` runs only when
      `show_page` did not raise. */
  function Select(c: Component, attached: bool, h: seq<int>, pageCount: nat): (r: Selection)
    ensures !attached ==> r == Selection(h, false, false)
    ensures attached && c.kind.BackButton? ==> r == Selection(GoBack(h), false, false)
    ensures attached && !c.kind.BackButton? ==>
              var prefix := PopWhile(h, c.nextPage);
              (r.raised <==> c.nextPage < 0 || c.nextPage >= pageCount)
              && (r.raised ==> r.history == prefix && !r.calledBack)
              && (!r.raised ==> r.history == prefix + [c.nextPage] && r.calledBack == c.hasOnSelect)
  {
    if !attached then Selection(h, false, false)
    else if c.kind.BackButton? then Selection(GoBack(h), false, false)
    else
      var prefix := PopWhile(h, c.nextPage);
      match ShowPage(prefix, pageCount, c.nextPage)
      case Err(_) => Selection(prefix, true, false)
      case Ok(h') => Selection(h', false, c.hasOnSelect)
  }

  /** Selecting a component never grows the history past one new entry,
      keeps a prefix of the old one, and visits its page at most once more:
      the kept prefix names the page only when it is the start entry
      alone. */
  lemma SelectShape(c: Component, h: seq<int>, pageCount: nat)
    requires |h| >= 1 && !c.kind.BackButton?
    requires 0 <= c.nextPage < pageCount
    ensures var r := Select(c, true, h, pageCount);
            var p := r.history[..|r.history| - 1];
            |r.history| >= 2 && r.history[|r.history| - 1] == c.nextPage
            && p == h[..|p|] && (c.nextPage in p ==> |p| == 1)
  {
    var prefix := PopWhile(h, c.nextPage);
    assert (prefix + [c.nextPage])[..|prefix|] == prefix;
  }

  /** Returning to a page already in the history cuts the history back to
      that first visit. */
  lemma SelectReturnsToVisit(c: Component, h: seq<int>, pageCount: nat, j: int)
    requires !c.kind.BackButton? && 0 <= c.nextPage < pageCount
    requires 1 <= j < |h| && h[j] == c.nextPage && c.nextPage !in h[..j]
    ensures Select(c, true, h, pageCount).history == h[..j + 1]
  {
    PopWhileCutsAtFirstVisit(h, c.nextPage, j);
    assert h[..j] + [h[j]] == h[..j + 1];
  }

  lemma SelectPreservesHistoryOk(c: Component, attached: bool, h: seq<int>, pageCount: nat)
    requires HistoryOk(h, pageCount)
    ensures HistoryOk(Select(c, attached, h, pageCount).history, pageCount)
  {
    var prefix := PopWhile(h, c.nextPage);
    assert prefix[0] == h[0];
    assert forall i :: 1 <= i < |prefix| ==> prefix[i] == h[i];
  }

  // ---------------------------------------------------------------------
  //  Page
  // ---------------------------------------------------------------------

  /** `Page.__init__`. */
  function NewPage(elements: seq<Component>, selectable: bool): (p: Page)
    ensures p.elements == elements && p.selectable == selectable && p.focus == 0
    ensures p.selectable <==> p.selected == 0
    ensures !p.selectable <==> p.selected == -1
  {
    Page(elements, selectable, 0, if selectable then 0 else -1)
  }

  /** The focus points at an element. */
  predicate FocusOk(p: Page)
  {
    0 <= p.focus < |p.elements|
  }

  /** `focus_next`: one step forward, wrapping; an empty page divides by
      zero. */
  function FocusNext(p: Page): (r: Result<Page, UiError>)
    ensures r.Err? <==> |p.elements| == 0
    ensures r.Err? ==> r.error == ZeroDivisionError
    ensures r.Ok? ==> FocusOk(r.value) && r.value == p.(focus := r.value.focus)
    ensures r.Ok? && FocusOk(p) ==> r.value.focus == (if p.focus == |p.elements| - 1 then 0 else p.focus + 1)
  {
    if |p.elements| == 0 then Err(ZeroDivisionError)
    else Ok(p.(focus := FloorMod(p.focus + 1, |p.elements|)))
  }

  /** `focus_previous`: one step back, wrapping. */
  function FocusPrevious(p: Page): (r: Result<Page, UiError>)
    ensures r.Err? <==> |p.elements| == 0
    ensures r.Err? ==> r.error == ZeroDivisionError
    ensures r.Ok? ==> FocusOk(r.value) && r.value == p.(focus := r.value.focus)
    ensures r.Ok? && FocusOk(p) ==> r.value.focus == (if p.focus == 0 then |p.elements| - 1 else p.focus - 1)
  {
    if |p.elements| == 0 then Err(ZeroDivisionError)
    else Ok(p.(focus := FloorMod(p.focus - 1, |p.elements|)))
  }

  /** The two focus moves undo each other. */
  lemma FocusMovesInverse(p: Page)
    requires FocusOk(p)
    ensures FocusPrevious(FocusNext(p).value) == Ok(p)
    ensures FocusNext(FocusPrevious(p).value) == Ok(p)
  {
  }

  /** From any focus, even one outside the page, a move lands inside. */
  lemma FocusMoveLandsInside(p: Page)
    requires |p.elements| >= 1
    ensures FocusOk(FocusNext(p).value) && FocusOk(FocusPrevious(p).value)
  {
  }

  /** The outcome of `Page.select`. */
  datatype PageSelection = PageSelection(page: Page, selection: Selection)

  /** `Page.select`: select the focused element (an index Python rejects
      raises); if that did not raise, a selectable element on a selectable
      page becomes the selected one, and otherwise the focus returns to the
      first element. */
  function SelectFocused(p: Page, attached: bool, h: seq<int>, pageCount: nat): (r: Result<PageSelection, UiError>)
    ensures r.Err? <==> !(-|p.elements| <= p.focus < |p.elements|)
    ensures r.Err? ==> r.error == IndexError
    ensures r.Ok? && FocusOk(p) ==> r.value.selection == Select(p.elements[p.focus], attached, h, pageCount)
    ensures r.Ok? && r.value.selection.raised ==> r.value.page == p
    ensures r.Ok? && FocusOk(p) && !r.value.selection.raised ==>
              if p.selectable && p.elements[p.focus].selectable
              then r.value.page == p.(selected := p.focus)
              else r.value.page == p.(focus := 0)
  {
    match PyIndex(p.elements, p.focus)
    case None => Err(IndexError)
    case Some(c) =>
      var s := Select(c, attached, h, pageCount);
      if s.raised then Ok(PageSelection(p, s))
      else if p.selectable && c.selectable then Ok(PageSelection(p.(selected := p.focus), s))
      else Ok(PageSelection(p.(focus := 0), s))
  }

  /** Selecting keeps the focus on an element, and a selection is only ever
      recorded on a selectable page, at a selectable element. */
  lemma SelectFocusedKeepsFocus(p: Page, attached: bool, h: seq<int>, pageCount: nat)
    requires FocusOk(p)
    ensures var r := SelectFocused(p, attached, h, pageCount);
            r.Ok? && FocusOk(r.value.page)
            && (r.value.page.selected != p.selected ==>
                  p.selectable && p.elements[p.focus].selectable && r.value.page.selected == p.focus)
  {
  }
}

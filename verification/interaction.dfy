/**
 * The search panel's state and its event handlers (assets/js/search.js:9-72,
 * 143-209): the loaded index, the rendered result items, which of them carry
 * the 'selected' class, whether the panel is shown (its 'active' class), the
 * cursor `selectedIndex` and whether the search box has focus.
 *
 * Hiding the panel only removes its 'active' class: the rendered items stay,
 * and the keyboard handler does not look at visibility, so ArrowDown and
 * Enter still act on the hidden items.
 */
module Interaction {
  import opened Wrappers
  import opened Text
  import Html
  import Ranking
  import Selection

  /** The value of `e.key` as far as the handlers tell keys apart. */
  datatype Key = ArrowDown | ArrowUp | Enter | Escape | Character(c: char) | OtherKey

  /** Where a click lands, as far as the click handlers tell targets apart. */
  datatype Target = SearchBox | ResultItem(position: nat) | InsidePanel | Elsewhere

  /** The `selected` flags `updateSelection` leaves on `n` items: only the item at `s`. */
  function Marks(n: nat, s: int): (r: seq<bool>)
    ensures |r| == n
    ensures Selection.InRange(s, n) ==> forall i :: 0 <= i < n ==> (r[i] <==> i == s)
  {
    seq(n, i requires 0 <= i < n => i == s)
  }

  /** At most one item is marked, and one is exactly when the cursor is on an item. */
  lemma {:induction false} MarksSelectAtMostOne(n: nat, s: int)
    requires Selection.InRange(s, n)
    ensures forall i, j :: 0 <= i < n && 0 <= j < n && Marks(n, s)[i] && Marks(n, s)[j] ==> i == j
    ensures (exists i :: 0 <= i < n && Marks(n, s)[i]) <==> s >= 0
  {
    if s >= 0 {
      assert Marks(n, s)[s];
    }
  }

  /**
   * The `data-url` attribute text of a rendered result, written with the
   * text-mode `escapeHtml`: read back, it gives the url up to its first `"`,
   * which is the whole url unless the url holds a `"`.
   */
  function DataUrl(x: Ranking.SearchResult): (r: string)
    ensures Html.AttributeValue(r) == Html.UpToQuote(x.page.url)
    ensures Html.NoQuote(x.page.url) ==> Html.AttributeValue(r) == x.page.url
  {
    Html.DataUrlReadBack(x.page.url);
    Html.EscapeHtml(x.page.url)
  }

  class SearchPanel {
    /** `searchIndex`; empty until the index has loaded, and if loading fails. */
    var index: seq<Ranking.IndexEntry>
    /** The results rendered as items; empty before any search and in the "No results found" state. */
    var results: seq<Ranking.SearchResult>
    /** Each item's `data-url` attribute text. */
    var dataUrls: seq<string>
    /** Which items carry the 'selected' class. */
    var selected: seq<bool>
    /** The panel carries the 'active' class. */
    var shown: bool
    /** The cursor: -1 for no selection, otherwise an item's position. */
    var selectedIndex: int
    /**
     * The search box has keyboard focus as far as these handlers move it:
     * set by Ctrl+K / Cmd+K, cleared by Escape. Focus the browser moves on
     * its own (a click elsewhere, tabbing away) is not tracked.
     */
    var focused: bool

    predicate Valid()
      reads this
    {
      |dataUrls| == |results| && |selected| == |results| &&
      Selection.InRange(selectedIndex, |results|) &&
      forall i :: 0 <= i < |results| ==> dataUrls[i] == DataUrl(results[i])
    }

    /** The state when the page has loaded: nothing searched, nothing shown, nothing selected. */
    constructor()
      ensures Valid()
      ensures index == [] && results == [] && !shown && selectedIndex == -1 && !focused
    {
      index := [];
      results := [];
      dataUrls := [];
      selected := [];
      shown := false;
      selectedIndex := -1;
      focused := false;
    }

    /** `searchIndex = data` once the fetch succeeds. */
    method IndexLoaded(data: seq<Ranking.IndexEntry>)
      requires Valid()
      modifies this
      ensures Valid()
      ensures index == data
      ensures results == old(results) && dataUrls == old(dataUrls) && selected == old(selected)
      ensures shown == old(shown) && selectedIndex == old(selectedIndex) && focused == old(focused)
    {
      index := data;
    }

    /**
     * `updateSelection`: walks the items and gives the 'selected' class to the
     * one at the cursor only.
     */
    method UpdateSelection()
      requires Valid()
      modifies this
      ensures Valid()
      ensures selected == Marks(|results|, selectedIndex)
      ensures index == old(index) && results == old(results) && dataUrls == old(dataUrls)
      ensures shown == old(shown) && selectedIndex == old(selectedIndex) && focused == old(focused)
    {
      var i := 0;
      while i < |selected|
        invariant 0 <= i <= |selected| == |results|
        invariant forall k :: 0 <= k < i ==> selected[k] == (k == selectedIndex)
        invariant Valid()
        invariant index == old(index) && results == old(results) && dataUrls == old(dataUrls)
        invariant shown == old(shown) && selectedIndex == old(selectedIndex) && focused == old(focused)
      {
        selected := selected[i := i == selectedIndex];
        i := i + 1;
      }
    }

    /**
     * `displayResults`: renders the results as fresh items (or the "No results
     * found" message when there are none), shows the panel and clears the
     * cursor.
     */
    method DisplayResults(rs: seq<Ranking.SearchResult>)
      requires Valid()
      modifies this
      ensures Valid()
      ensures results == rs && selected == Marks(|rs|, -1)
      ensures shown && selectedIndex == -1
      ensures index == old(index) && focused == old(focused)
    {
      if |rs| == 0 {
        results := [];
        dataUrls := [];
        selected := [];
        shown := true;
        selectedIndex := -1;
        return;
      }
      results := rs;
      dataUrls := seq(|rs|, i requires 0 <= i < |rs| => DataUrl(rs[i]));
      selected := seq(|rs|, i requires 0 <= i < |rs| => false);
      shown := true;
      selectedIndex := -1;
    }

    /** `hideResults`: hides the panel and clears the cursor; the items stay rendered. */
    method HideResults()
      requires Valid()
      modifies this
      ensures Valid()
      ensures !shown && selectedIndex == -1
      ensures index == old(index) && results == old(results) && dataUrls == old(dataUrls)
      ensures selected == old(selected) && focused == old(focused)
    {
      shown := false;
      selectedIndex := -1;
    }

    /** `performSearch`: ranks the index against the query and renders the outcome. */
    method Search(query: string)
      requires Valid()
      modifies this
      ensures Valid()
      ensures results == Ranking.PerformSearch(index, query) && selected == Marks(|results|, -1)
      ensures shown && selectedIndex == -1
      ensures index == old(index) && focused == old(focused)
    {
      DisplayResults(Ranking.PerformSearch(index, query));
    }

    /**
     * The search box's input handler: a trimmed value shorter than two
     * characters hides the panel without searching (the rendered items stay);
     * a longer one is searched for.
     */
    method Input(value: string)
      requires Valid()
      modifies this
      ensures Valid()
      ensures selectedIndex == -1 && index == old(index) && focused == old(focused)
      ensures |Trim(value)| < 2 ==> !shown && results == old(results) && selected == old(selected)
      ensures |Trim(value)| >= 2 ==>
        shown && results == Ranking.PerformSearch(index, Trim(value)) && selected == Marks(|results|, -1)
    {
      var query := Trim(value);
      if |query| < 2 {
        HideResults();
        return;
      }
      Search(query);
    }

    /**
     * The search box's keydown handler. The arrows move the cursor, clamped,
     * and re-mark the items; Enter follows the item at the cursor, if there
     * is one, and returns the URL navigated to; Escape hides the panel and
     * blurs the box. Whether the panel is shown plays no part.
     */
    method KeyDown(key: Key) returns (navigate: Option<string>)
      requires Valid()
      modifies this
      ensures Valid()
      ensures index == old(index) && results == old(results)
      ensures key == ArrowDown ==>
        selectedIndex == Selection.Down(old(selectedIndex), |results|) &&
        selected == Marks(|results|, selectedIndex) && shown == old(shown) && focused == old(focused)
      ensures key == ArrowUp ==>
        selectedIndex == Selection.Up(old(selectedIndex)) &&
        selected == Marks(|results|, selectedIndex) && shown == old(shown) && focused == old(focused)
      ensures key == Escape ==>
        !shown && selectedIndex == -1 && !focused && selected == old(selected)
      ensures key != ArrowDown && key != ArrowUp && key != Escape ==>
        selectedIndex == old(selectedIndex) && selected == old(selected) && shown == old(shown) && focused == old(focused)
      ensures key == Enter && 0 <= old(selectedIndex) ==>
        navigate == Some(Html.UpToQuote(results[old(selectedIndex)].page.url))
      ensures key != Enter || old(selectedIndex) < 0 ==> navigate == None
    {
      navigate := None;
      match key {
        case ArrowDown =>
          selectedIndex := Selection.Down(selectedIndex, |results|);
          UpdateSelection();
        case ArrowUp =>
          selectedIndex := Selection.Up(selectedIndex);
          UpdateSelection();
        case Enter =>
          match Selection.Activated(selectedIndex, |results|) {
            case Some(i) =>
              var url := Follow(i);
              navigate := Some(url);
            case None =>
          }
        case Escape =>
          HideResults();
          focused := false;
        case _ =>
      }
    }

    /**
     * An item's click handler: navigates to the item's `data-url`, which is
     * the page's url cut at its first `"`.
     */
    method Follow(i: nat) returns (url: string)
      requires Valid() && i < |results|
      ensures url == Html.UpToQuote(results[i].page.url)
      ensures Html.NoQuote(results[i].page.url) ==> url == results[i].page.url
    {
      url := Html.AttributeValue(dataUrls[i]);
    }

    /**
     * A click: on an item it follows the item; the document's handler hides
     * the panel when the click lands outside both the search box and the
     * panel.
     */
    method Click(target: Target) returns (navigate: Option<string>)
      requires Valid()
      requires target.ResultItem? ==> target.position < |results|
      modifies this
      ensures Valid()
      ensures index == old(index) && results == old(results) && selected == old(selected)
      ensures focused == old(focused)
      ensures target == Elsewhere ==> !shown && selectedIndex == -1
      ensures target != Elsewhere ==> shown == old(shown) && selectedIndex == old(selectedIndex)
      ensures target.ResultItem? ==> navigate == Some(Html.UpToQuote(results[target.position].page.url))
      ensures !target.ResultItem? ==> navigate == None
    {
      navigate := None;
      match target {
        case ResultItem(i) =>
          var url := Follow(i);
          navigate := Some(url);
        case Elsewhere =>
          HideResults();
        case _ =>
      }
    }

    /** An item's mouseenter handler: the cursor moves to that item's `data-index`. */
    method MouseEnter(position: nat)
      requires Valid() && position < |results|
      modifies this
      ensures Valid()
      ensures selectedIndex == position && selected == Marks(|results|, position)
      ensures index == old(index) && results == old(results) && shown == old(shown) && focused == old(focused)
    {
      selectedIndex := position;
      UpdateSelection();
    }

    /** The document's keydown handler: Ctrl+K or Cmd+K focuses the search box. */
    method DocumentKeyDown(ctrl: bool, meta: bool, key: Key)
      requires Valid()
      modifies this
      ensures Valid()
      ensures focused == (((ctrl || meta) && key == Character('k')) || old(focused))
      ensures index == old(index) && results == old(results) && selected == old(selected)
      ensures shown == old(shown) && selectedIndex == old(selectedIndex)
    {
      if (ctrl || meta) && key == Character('k') {
        focused := true;
      }
    }
  }

  /**
   * Shortening the query to under two characters hides the panel but leaves
   * its items, and the box keeps its focus. The keydown handler does not look
   * at visibility, so ArrowDown and Enter still navigate to the first result
   * (its `data-url`) while the panel is hidden.
   */
  method HiddenPanelStillNavigates(panel: SearchPanel, value: string) returns (navigate: Option<string>)
    requires panel.Valid() && |panel.results| >= 1 && |Trim(value)| < 2
    modifies panel
    ensures panel.Valid() && !panel.shown && panel.selectedIndex == 0
    ensures panel.results == old(panel.results) && panel.focused == old(panel.focused)
    ensures navigate == Some(Html.UpToQuote(panel.results[0].page.url))
    ensures Html.NoQuote(panel.results[0].page.url) ==> navigate == Some(panel.results[0].page.url)
  {
    panel.Input(value);
    var ignored := panel.KeyDown(ArrowDown);
    navigate := panel.KeyDown(Enter);
  }

  /**
   * Escape hides the panel and blurs the box, so the keys stop reaching the
   * box's handler. Once Ctrl+K has focused the box again, ArrowDown and Enter
   * navigate to the first result of the still hidden panel.
   */
  method EscapedPanelNavigatesAfterRefocus(panel: SearchPanel) returns (navigate: Option<string>)
    requires panel.Valid() && |panel.results| >= 1
    modifies panel
    ensures panel.Valid() && !panel.shown && panel.selectedIndex == 0 && panel.focused
    ensures panel.results == old(panel.results)
    ensures navigate == Some(Html.UpToQuote(panel.results[0].page.url))
  {
    var ignored := panel.KeyDown(Escape);
    assert !panel.focused;
    panel.DocumentKeyDown(true, false, Character('k'));
    ignored := panel.KeyDown(ArrowDown);
    navigate := panel.KeyDown(Enter);
  }
}

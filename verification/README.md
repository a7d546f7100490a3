# Documentation-site search, modelled in Dafny

This project models the client-side search of a static documentation site
(`assets/js/search.js`). It covers four parts.

- **Ranking.** `performSearch` case-folds the query. It keeps the index
  entries whose title or headings contain the query. It scores each kept entry
  (100 for a title hit, 50 more for an exact title, 25 more for a title
  prefix, 10 per matching heading), sorts stably by descending score and keeps
  the first ten.
- **String helpers.** `escapeRegex` backslash-escapes regular-expression
  syntax. `escapeHtml` escapes text for HTML. `highlightMatch` escapes a title
  and wraps each case-insensitive occurrence of the query in
  `<strong>…</strong>`.
- **Index path.** The index file's location is derived from the configured
  assets path.
- **Search panel.** The panel's state and its event handlers cover the input
  box, the arrow keys, Enter and Escape, clicks, hovering an item, and Ctrl/Cmd+K.

Modules:

- `Text` holds `toLowerCase` (ASCII), `trim`, `includes` and `startsWith`.
- `RegexEscape` holds `escapeRegex` and the literal reading of an escaped pattern.
- `Html` holds:
  - text-mode and attribute-mode escaping;
  - `Render`, the text a fragment displays;
  - `AttributeValue`, the value `getAttribute` reads back;
  - highlighting as written, and a corrected version.
- `Ranking` holds the `performSearch` pipeline.
- `IndexPath` holds the index location.
- `Selection` holds the cursor arithmetic of `selectedIndex`.
- `Interaction` holds the class `SearchPanel`. Its fields are the ones the
  handlers overwrite, and it has one method per handler.

Browser effects are modelled as outcomes:

- Navigation is the URL a handler returns.
- Focus is a flag.
- The 'selected' and 'active' classes are fields.

Hiding the panel (`hideResults`, search.js:203-209) only removes the panel's
'active' class. The rendered items stay, and the box's keydown handler
(search.js:35-55) does not check visibility. When the input handler hides the
panel because the query became shorter than two characters (search.js:26-28),
the box keeps its focus. ArrowDown and Enter then still move over the hidden
items and follow them. The same holds after Escape once the box has focus
again: Escape blurs the box (search.js:53), so until then the keys reach only
the document's handler. The model keeps this behaviour.
`Interaction.HiddenPanelStillNavigates` states the first case and
`Interaction.EscapedPanelNavigatesAfterRefocus` the second.

## Model

| member | source | states |
|---|---|---|
| Text.Lower | assets/js/search.js:101 | `toLowerCase` keeps the length and folds every character on its own |
| Text.StartsWith | assets/js/search.js:124 | `startsWith(p)` holds exactly when `p` fits in the string and agrees with its first characters one by one |
| Text.Includes | assets/js/search.js:106 | a string includes only queries that fit in it, and at equal length it includes exactly itself |
| Text.IncludesIffOccurs | assets/js/search.js:106-108 | `includes(q)` holds exactly when `q` occurs at some position of the string |
| Text.Trim | assets/js/search.js:24 | `trim` returns a slice of the value. Everything cut off on either side is white space or a line terminator, and the slice neither starts nor ends with one |
| RegexEscape.EscapeRegex | assets/js/search.js:226-228 | the escaped text is as long as the query plus its number of syntax characters |
| RegexEscape.EscapeRegexIsLiteral | assets/js/search.js:226-228 | the escaped query reads as a pattern of literal characters only, and that literal is exactly the query |
| RegexEscape.EscapeRegexPlain | assets/js/search.js:226-228 | a query with no syntax characters is copied unchanged |
| Html.EscapeHtml | assets/js/search.js:219-223 | escaping never shortens the text. What it produces is safe (`EscapeHtmlSafe`) and displays as the text (`EscapeHtmlRoundTrip`) |
| Html.EscapeHtmlSafe | assets/js/search.js:219-223 | escaped text has no raw `<` or `>`, and every `&` starts `&amp;`, `&lt;`, `&gt;` or `&nbsp;` |
| Html.EscapeHtmlRoundTrip | assets/js/search.js:219-223 | escaped text displays as the original text |
| Html.EscapeHtmlConcat | assets/js/search.js:219-223 | escaping a concatenation escapes each part |
| Html.EscapeAttribute | assets/js/search.js:165 | corrected `data-url` escaping: the escaped url holds no `"` |
| Html.AttributeRoundTrip | assets/js/search.js:165 | corrected `data-url`: reading the attribute back gives exactly the url |
| Html.QuoteCutsDataUrl | assets/js/search.js:165 | as written, the url `/a"b` is read back from `data-url` as `/a` |
| Html.EscapeHtmlWithoutQuote | assets/js/search.js:165 | on a url without `"`, the text-mode escaping the source uses agrees with attribute-mode escaping |
| Html.UpToQuoteEscaped | assets/js/search.js:165 | `escapeHtml` adds no `"` and keeps each one, so the attribute value ends where the url's first `"` was |
| Html.DataUrlReadBack | assets/js/search.js:165 | as written, `data-url` reads back as the url up to its first `"`. That is the whole url exactly when the url holds no `"` |
| Html.WrapMatches | assets/js/search.js:215 | the global replace only adds text. Where it adds markers is stated by `WrapNoMatch` and `WrapFirstMatch` |
| Html.WrapNoMatch | assets/js/search.js:215 | with a non-empty query that occurs nowhere, the text comes back unchanged |
| Html.WrapFirstMatch | assets/js/search.js:215 | the first occurrence of the query, at position i, is wrapped in `<strong>`/`</strong>`. The i characters before it are copied, and the replace resumes right after it |
| Html.StripWrapped | assets/js/search.js:215 | on text without `<`, taking the inserted markers out of the wrapped text gives the text back |
| Html.HighlightMatch | assets/js/search.js:212-216 | taking the `<strong>`/`</strong>` markers out of the highlighted title gives exactly `escapeHtml(title)` |
| Html.HighlightPlainQuery | assets/js/search.js:212-216 | any query, syntax characters included, is matched literally and case-insensitively in the escaped title |
| Html.HighlightFirstMatch | assets/js/search.js:212-216 | an escaped title in which the query never occurs is returned without markers. Otherwise the first occurrence in the escaped title is the first one wrapped |
| Html.NoHighlightForAngleQuery | assets/js/search.js:212-216 | a query holding `<` or `>` highlights nothing: the result is `escapeHtml(title)` |
| Html.HighlightSplitsReference | assets/js/search.js:212-216 | as written, title `am&` with query `am` also marks the `am` inside `&amp;`, and the browser shows `am&amp;` |
| Html.HighlightAmpersandQuery | assets/js/search.js:212-216 | as written, query `a&` on title `a&b` marks `a&` of `a&amp;b`, cutting the reference |
| Html.RenderWrappedEscaped | assets/js/search.js:212-216 | corrected highlighting, with matches found in the title and each piece escaped on its own, displays as the title |
| Html.HighlightMatchFixed | assets/js/search.js:212-216 | the corrected highlighted title always displays as the title |
| Html.WrapEscapedNoMatch | assets/js/search.js:212-216 | corrected highlighting of a title in which the query never occurs is the title's plain escape |
| Html.WrapEscapedFirstMatch | assets/js/search.js:212-216 | corrected highlighting escapes the text before the first occurrence in the title, then wraps the escaped occurrence and resumes after it |
| Html.HighlightFixedFirstMatch | assets/js/search.js:212-216 | the corrected highlighted title has no markers when the query never occurs in the title. Otherwise its first marker surrounds the title's first occurrence |
| Ranking.HeadingMatches | assets/js/search.js:107-109 | the kept headings are headings of the page that contain the query, and there are no more of them than headings |
| Ranking.FilterCount | assets/js/search.js:107-109 | the kept headings are the headings that contain the query, each as often as in the page |
| Ranking.FilterConcat | assets/js/search.js:107-109 | the filter keeps order: filtering a concatenation concatenates the filtered parts |
| Ranking.HeadingMatchesEmpty | assets/js/search.js:107-113 | there are heading matches exactly when some heading contains the query |
| Ranking.Score | assets/js/search.js:116-128 | the score is 175+10h for an exact title, 125+10h for a prefix-only title, 100+10h for any other title hit and 10h with no title hit |
| Ranking.Evaluate | assets/js/search.js:105-134 | a kept page's result carries that page and scores at least 10 |
| Ranking.EvaluateMatches | assets/js/search.js:106-134 | a page is kept exactly when its title or a heading contains the query. Its result then holds the heading matches and the score |
| Ranking.Evaluated | assets/js/search.js:104-134 | `map` gives one slot per page, in index order. A filled slot holds the result of the page at that position |
| Ranking.Present | assets/js/search.js:135 | dropping the nulls gives no more values than slots |
| Ranking.Candidates | assets/js/search.js:104-135 | there are no more candidates than pages. Order and membership are stated by the next three lemmas |
| Ranking.CandidatesConcat | assets/js/search.js:104-135 | candidates keep index order |
| Ranking.CandidateFromIndex | assets/js/search.js:104-135 | every candidate is the result of a page of the index |
| Ranking.MatchingPageIsCandidate | assets/js/search.js:104-135 | every matching page of the index has its result among the candidates |
| Ranking.Insert | assets/js/search.js:136 | insertion adds exactly one result and loses none (multiset) |
| Ranking.StableSort | assets/js/search.js:136 | the sort is a permutation of its input |
| Ranking.StableSortSorted | assets/js/search.js:136 | the sort orders by non-increasing score |
| Ranking.StableSortKeepsTies | assets/js/search.js:136 | the sort is stable: the results of each score keep their order |
| Ranking.StableOrderUnique | assets/js/search.js:136 | two score-sorted lists that agree on every score's subsequence are equal, so any stable sort gives this list |
| Ranking.Top | assets/js/search.js:137 | `slice(0, 10)` is a prefix of at most ten results, and the whole list when it is shorter |
| Ranking.PerformSearch | assets/js/search.js:99-141 | at most ten results, sorted by score, each the result of an index page. With at most ten matches it holds all of them |
| Ranking.PerformSearchIsTopOfStableOrder | assets/js/search.js:136-138 | the output is the first min(10, n) results of any stable descending-score order of the candidates |
| Ranking.PerformSearchKeepsTies | assets/js/search.js:136-138 | the shown results of any one score are a prefix of that score's candidates in index order |
| Ranking.PageShownIffMatches | assets/js/search.js:104-138 | a page is shown only if it matches. When at most ten match, every matching page is shown |
| Ranking.TwoMatchingPages | assets/js/search.js:104-138 | two matching pages come out higher score first, index order on a tie |
| Ranking.ExactTitleBeforeHeadingHit | assets/js/search.js:116-138 | an exact-title page (175) comes before a page with one matching heading (10) |
| IndexPath.AssetsPath | assets/js/search.js:76 | a missing or empty assets path gives `./`; any other is kept |
| IndexPath.HasAssetsSuffixIff | assets/js/search.js:80 | the character-wise test is the "ends with `assets/`" test |
| IndexPath.RootPath | assets/js/search.js:80 | a trailing `assets/` is removed, and any other path is kept. The result is a prefix of the path |
| IndexPath.SearchIndexPath | assets/js/search.js:80-81 | the path ends in `search-index.json`. It is the path minus a trailing `assets/`, or the whole path, followed by the file name |
| IndexPath.RootPathOfAssetsDir | assets/js/search.js:80-81 | `dir + "assets/"` gives `dir + "search-index.json"` |
| IndexPath.OnlyOneAssetsDirRemoved | assets/js/search.js:80 | only one trailing `assets/` is removed |
| IndexPath.DefaultIndexPath | assets/js/search.js:76-81 | with no configuration the index is `./search-index.json` |
| Selection.Down | assets/js/search.js:40 | ArrowDown stays in [-1, n-1], moves one down, sticks at the last item, and gives -1 with no items |
| Selection.Up | assets/js/search.js:44 | ArrowUp stays in range, moves one up and sticks at -1; it never wraps |
| Selection.PressInRange | assets/js/search.js:38-45 | any sequence of arrow presses keeps the cursor in [-1, n-1] |
| Selection.DownPresses | assets/js/search.js:38-41 | k ArrowDown presses from s give min(s+k, n-1) |
| Selection.UpPresses | assets/js/search.js:42-45 | k ArrowUp presses from s give max(s-k, -1) |
| Selection.UpUndoesDown | assets/js/search.js:38-45 | ArrowUp undoes ArrowDown below the last item |
| Selection.DownUndoesUp | assets/js/search.js:38-45 | ArrowDown undoes ArrowUp from a selected item |
| Selection.Activated | assets/js/search.js:48 | Enter picks the item at the cursor exactly when the cursor is on an existing item |
| Selection.EnterAfterDownPresses | assets/js/search.js:38-50 | Enter after k >= 1 ArrowDown presses from -1 picks item min(k, n)-1, or nothing with no items |
| Interaction.Marks | assets/js/search.js:191-200 | the 'selected' flags mark exactly the item at the cursor |
| Interaction.MarksSelectAtMostOne | assets/js/search.js:191-200 | at most one item is marked, and one is exactly when the cursor is on an item |
| Interaction.DataUrl | assets/js/search.js:165 | the `data-url` text, written with `escapeHtml` as in the source, reads back as the page's url up to its first `"`. That is the whole url when the url holds no `"` |
| Interaction.SearchPanel.constructor | assets/js/search.js:9-10 | empty index, no items, panel hidden, cursor -1 |
| Interaction.SearchPanel.IndexLoaded | assets/js/search.js:90-92 | the loaded data becomes the index; nothing else changes |
| Interaction.SearchPanel.UpdateSelection | assets/js/search.js:191-200 | the loop leaves exactly the item at the cursor marked; nothing else changes |
| Interaction.SearchPanel.DisplayResults | assets/js/search.js:144-174 | fresh unmarked items for the results (none in the "No results found" state), panel shown, cursor -1 |
| Interaction.SearchPanel.HideResults | assets/js/search.js:203-209 | panel hidden, cursor -1, items and marks kept |
| Interaction.SearchPanel.Search | assets/js/search.js:99-141 | the rendered items are `PerformSearch(index, query)`, shown, cursor -1 |
| Interaction.SearchPanel.Input | assets/js/search.js:23-32 | a trimmed value under two characters hides without searching. A longer one renders `PerformSearch` of the trimmed value with no item marked. Both reset the cursor |
| Interaction.SearchPanel.KeyDown | assets/js/search.js:35-55 | the arrows set the cursor by `Down`/`Up` and re-mark the items. Enter navigates only when the cursor is on an item, to that item's `data-url` read back: its url up to the first `"`. Escape hides and blurs. Visibility plays no part |
| Interaction.SearchPanel.Follow | assets/js/search.js:178-181 | clicking an item navigates to its `data-url` read back: the result's url up to its first `"`, which is the whole url when it holds no `"` |
| Interaction.SearchPanel.Click | assets/js/search.js:58-62 | a click outside the box and the panel hides the panel. A click on an item navigates to its `data-url` read back, the url up to its first `"`. Other clicks change nothing |
| Interaction.SearchPanel.MouseEnter | assets/js/search.js:183-186 | hovering an item puts the cursor on it and marks only it |
| Interaction.SearchPanel.DocumentKeyDown | assets/js/search.js:65-71 | Ctrl+K or Cmd+K focuses the box; nothing else changes |
| Interaction.HiddenPanelStillNavigates | assets/js/search.js:23-55 | after the input handler hides the panel for a query under two characters, focus and items unchanged, ArrowDown then Enter still navigate to the first result's `data-url`, which is its url when the url holds no `"` |
| Interaction.EscapedPanelNavigatesAfterRefocus | assets/js/search.js:35-71 | Escape hides the panel and blurs the box. After Ctrl+K focuses the box again, ArrowDown then Enter navigate to the hidden first result's `data-url` |

## Left out

- Loading the index (search.js:83-95) is not modelled: the fetch, the `response.ok` check, JSON parsing and console logging are network I/O. The loaded data arrives through `IndexLoaded`. A failed load leaves the index as it was, which is empty at first.
- Start-up (search.js:13-20, 231-235) is not modelled: waiting for `DOMContentLoaded`, and the early return when the box or the panel is missing. `SearchPanel` assumes both exist.
- Most of the `innerHTML` assembly of `displayResults` (search.js:154-170) is not modelled: the template whitespace, the breadcrumb join, the first two heading matches, and the highlighted title markup. The model keeps each item's position and its `data-url` text, written with `escapeHtml` as the source writes it. Highlighting is modelled on its own in `Html`.
- `scrollIntoView` and `preventDefault` have no state to model. `focus`, `select` and `blur` are reduced to the `focused` flag, which follows only the handlers' own `focus()` and `blur()` calls. Focus the browser moves by itself, such as a click elsewhere or tabbing away, is not tracked, so `Click(Elsewhere)` leaves the flag as it was. `window.location.href = url` becomes the URL a handler returns.
- `parseInt(data-index)` is taken to give the item's position, which the template writes.
- Case folding is ASCII only. `toLowerCase` and the regular expression's `i` flag also fold other scripts; the model leaves non-ASCII characters as they are.
- Lengths count characters, not UTF-16 code units. So the "shorter than 2" test differs for characters outside the Basic Multilingual Plane.
- `Html.Render`, `Html.AttributeValue`, and the round trips built on them (`Html.EscapeHtmlRoundTrip`, `Html.AttributeRoundTrip`, `Html.DataUrlReadBack`, `Html.RenderWrappedEscaped`, `Html.HighlightMatchFixed`), do not model the HTML parser's input preprocessing when `innerHTML` is assigned (search.js:172). CR and CRLF are not turned into LF, and U+0000 is neither dropped from text nor replaced by U+FFFD in attribute values. The round trips hold for the model's reader. For a url or title holding CR or U+0000, the browser gives back a different string.
- `Html.Render` decodes only `&amp;`, `&lt;`, `&gt;`, `&nbsp;`, `&quot;` and the `<strong>` tags. It is not a general HTML parser.
- `assets/js/navigation.js` and `assets/js/toc.js` are not part of this model. They hold DOM class toggling, layout and timer code, with no search logic.

## Findings

| source | as written | input that shows it | evidently intended | confidence | as-written member | corrected member |
|---|---|---|---|---|---|---|
| assets/js/search.js:212-216 | the query is matched inside the already-escaped title, so a marker can land inside a character reference | title `am&`, query `am`: the result is `<strong>am</strong>&<strong>am</strong>p;`, which displays as `am&amp;` | the title displays unchanged, with its matches highlighted | not executed | Html.HighlightSplitsReference | Html.HighlightMatchFixed |
| assets/js/search.js:212-216 | a query holding `&` matches the escaped `&amp;` and cuts it | title `a&b`, query `a&`: the result is `<strong>a&</strong>amp;b` | a query with `&` highlights the `&` of the title, and every reference stays whole | not executed | Html.HighlightAmpersandQuery | Html.HighlightMatchFixed |
| assets/js/search.js:165 | `data-url` is written with text-mode `escapeHtml`, which leaves `"`, so the attribute value ends at the first quote of the url | url `/a"b`: `getAttribute('data-url')` gives `/a`, and clicking navigates there | clicking navigates to the page's url | not executed | Html.QuoteCutsDataUrl | Html.AttributeRoundTrip |

The search panel keeps the `data-url` as written, so its navigation contracts
state the cut at the first `"` (`Html.DataUrlReadBack`). `Html.EscapeAttribute`
and `Html.AttributeRoundTrip` state the intended escaping on their own.

/**
 * `performSearch` (assets/js/search.js:99-141): every index entry is matched
 * against the lower-cased query, the entries that match are scored, the list
 * is sorted by descending score with a stable sort, and the first ten are kept.
 *
 * The index is a plain input sequence; the empty sequence stands for an index
 * that has not loaded (or failed to load).
 */
module Ranking {
  import opened Wrappers
  import opened Text

  /** One page of the search index. */
  datatype IndexEntry = IndexEntry(title: string, headings: seq<string>, breadcrumbs: seq<string>, url: string)

  /** `{ page, headingMatches, score }`. */
  datatype SearchResult = SearchResult(page: IndexEntry, headingMatches: seq<string>, score: int)

  /** `.slice(0, 10)`. */
  const MaxResults: nat := 10

  /** `s.toLowerCase().includes(lowerQuery)`. */
  predicate Hit(s: string, lq: string)
  {
    Includes(Lower(s), lq)
  }

  // ---------------------------------------------------------------------------
  // Matching one page

  /** `xs.filter(keep)`: the elements that pass, in their order in `xs`. */
  function Filter<T>(xs: seq<T>, keep: T -> bool): (r: seq<T>)
    ensures |r| <= |xs|
    ensures forall x :: x in r ==> x in xs && keep(x)
  {
    if xs == [] then []
    else (if keep(xs[0]) then [xs[0]] else []) + Filter(xs[1..], keep)
  }

  /**
   * Each element occurs in the filtered sequence exactly as often as in `xs`
   * when it passes, and never otherwise.
   */
  lemma {:induction false} FilterCount<T>(xs: seq<T>, keep: T -> bool, x: T)
    ensures multiset(Filter(xs, keep))[x] == if keep(x) then multiset(xs)[x] else 0
  {
    if xs != [] {
      var head := if keep(xs[0]) then [xs[0]] else [];
      assert Filter(xs, keep) == head + Filter(xs[1..], keep);
      assert multiset(Filter(xs, keep)) == multiset(head) + multiset(Filter(xs[1..], keep));
      FilterCount(xs[1..], keep, x);
      assert xs == [xs[0]] + xs[1..];
      assert multiset(xs) == multiset{xs[0]} + multiset(xs[1..]);
    }
  }

  /**
   * Filtering keeps order: filtering a concatenation filters each part and
   * concatenates the results, so an element that comes before another in `xs`
   * comes before it in the filtered sequence.
   */
  lemma {:induction false} FilterConcat<T>(a: seq<T>, b: seq<T>, keep: T -> bool)
    ensures Filter(a + b, keep) == Filter(a, keep) + Filter(b, keep)
  {
    if a == [] {
      assert a + b == b;
    } else {
      var c := a + b;
      assert c[0] == a[0] && c[1..] == a[1..] + b;
      var head := if keep(a[0]) then [a[0]] else [];
      assert Filter(c, keep) == head + Filter(a[1..] + b, keep);
      FilterConcat(a[1..], b, keep);
      assert Filter(a, keep) == head + Filter(a[1..], keep);
    }
  }

  /** `page.headings.filter(h => h.toLowerCase().includes(lowerQuery))`. */
  function HeadingMatches(hs: seq<string>, lq: string): (r: seq<string>)
    ensures |r| <= |hs|
    ensures forall h :: h in r ==> h in hs && Hit(h, lq)
  {
    Filter(hs, h => Hit(h, lq))
  }

  /** A page has heading matches exactly when one of its headings contains the query. */
  lemma HeadingMatchesEmpty(hs: seq<string>, lq: string)
    ensures HeadingMatches(hs, lq) != [] <==> exists h :: h in hs && Hit(h, lq)
  {
    var r := HeadingMatches(hs, lq);
    if r != [] {
      FilterCount(hs, h => Hit(h, lq), r[0]);
      assert r[0] in multiset(r);
    } else {
      forall h | h in hs
        ensures !Hit(h, lq)
      {
        FilterCount(hs, h' => Hit(h', lq), h);
      }
    }
  }

  /**
   * The relevance score of a page: 100 for a title hit, 50 more when the title
   * is the query, 25 more when the title starts with it, and 10 per matching
   * heading.
   */
  function Score(title: string, matchCount: nat, lq: string): (r: int)
    ensures Lower(title) == lq ==> r == 175 + 10 * matchCount
    ensures StartsWith(Lower(title), lq) && Lower(title) != lq ==> r == 125 + 10 * matchCount
    ensures Hit(title, lq) && !StartsWith(Lower(title), lq) ==> r == 100 + 10 * matchCount
    ensures !Hit(title, lq) ==> r == 10 * matchCount
  {
    var lt := Lower(title);
    EqualStartsIncludes(lt, lq);
    var titleScore :=
      if Includes(lt, lq) then
        100 + (if lt == lq then 50 else 0) + (if StartsWith(lt, lq) then 25 else 0)
      else 0;
    titleScore + matchCount * 10
  }

  /** The mapping step of `performSearch`: `None` (the source's `null`) for a page that does not match. */
  function Evaluate(page: IndexEntry, lq: string): (r: Option<SearchResult>)
    ensures r.Some? ==> r.value.page == page && r.value.score >= 10
  {
    var titleMatch := Hit(page.title, lq);
    var headingMatches := HeadingMatches(page.headings, lq);
    if !titleMatch && |headingMatches| == 0 then None
    else Some(SearchResult(page, headingMatches, Score(page.title, |headingMatches|, lq)))
  }

  /**
   * A page is kept exactly when its title or one of its headings contains the
   * query; its result then carries the matching headings and the page's score.
   */
  lemma EvaluateMatches(page: IndexEntry, lq: string)
    ensures Evaluate(page, lq).Some? <==> Hit(page.title, lq) || exists h :: h in page.headings && Hit(h, lq)
    ensures Evaluate(page, lq).Some? ==>
      Evaluate(page, lq).value.headingMatches == HeadingMatches(page.headings, lq) &&
      Evaluate(page, lq).value.score == Score(page.title, |HeadingMatches(page.headings, lq)|, lq)
  {
    HeadingMatchesEmpty(page.headings, lq);
  }

  // ---------------------------------------------------------------------------
  // Matching the whole index

  /** `.filter(result => result !== null)`: the present values, in order. */
  function Present<T>(os: seq<Option<T>>): (r: seq<T>)
    ensures |r| <= |os|
  {
    if os == [] then []
    else (match os[0] case Some(x) => [x] case None => []) + Present(os[1..])
  }

  /** Dropping the nulls of a concatenation drops them from each part. */
  lemma {:induction false} PresentConcat<T>(a: seq<Option<T>>, b: seq<Option<T>>)
    ensures Present(a + b) == Present(a) + Present(b)
  {
    if a == [] {
      assert a + b == b;
    } else {
      var c := a + b;
      assert c[0] == a[0] && c[1..] == a[1..] + b;
      var head := match a[0] case Some(x) => [x] case None => [];
      assert Present(c) == head + Present(a[1..] + b);
      PresentConcat(a[1..], b);
      assert Present(a) == head + Present(a[1..]);
    }
  }

  /** A value is present exactly when some position holds it. */
  lemma {:induction false} PresentIff<T>(os: seq<Option<T>>, x: T)
    ensures x in Present(os) <==> exists i :: 0 <= i < |os| && os[i] == Some(x)
  {
    if os != [] {
      PresentIff(os[1..], x);
      var head := match os[0] case Some(y) => [y] case None => [];
      assert Present(os) == head + Present(os[1..]);
      if exists i :: 0 <= i < |os[1..]| && os[1..][i] == Some(x) {
        var i :| 0 <= i < |os[1..]| && os[1..][i] == Some(x);
        assert os[i + 1] == Some(x);
      }
      if exists i :: 0 <= i < |os| && os[i] == Some(x) {
        var i :| 0 <= i < |os| && os[i] == Some(x);
        if i > 0 {
          assert os[1..][i - 1] == Some(x);
        }
      }
    }
  }

  /** `searchIndex.map(page => ...)`: every page evaluated against the query. */
  function Evaluated(index: seq<IndexEntry>, lq: string): (r: seq<Option<SearchResult>>)
    ensures |r| == |index|
    ensures forall i :: 0 <= i < |index| && r[i].Some? ==> r[i].value.page == index[i]
  {
    seq(|index|, i requires 0 <= i < |index| => Evaluate(index[i], lq))
  }

  /** `searchIndex.map(...).filter(result => result !== null)`. */
  function Candidates(index: seq<IndexEntry>, lq: string): (r: seq<SearchResult>)
    ensures |r| <= |index|
  {
    Present(Evaluated(index, lq))
  }

  /**
   * Candidates keep index order: the candidates of a concatenation are those
   * of the first part followed by those of the second.
   */
  lemma CandidatesConcat(a: seq<IndexEntry>, b: seq<IndexEntry>, lq: string)
    ensures Candidates(a + b, lq) == Candidates(a, lq) + Candidates(b, lq)
  {
    EvaluatedConcat(a, b, lq);
    PresentConcat(Evaluated(a, lq), Evaluated(b, lq));
  }

  lemma EvaluatedConcat(a: seq<IndexEntry>, b: seq<IndexEntry>, lq: string)
    ensures Evaluated(a + b, lq) == Evaluated(a, lq) + Evaluated(b, lq)
  {
    var c, ea, eb := a + b, Evaluated(a, lq), Evaluated(b, lq);
    forall i | 0 <= i < |c|
      ensures Evaluated(c, lq)[i] == (ea + eb)[i]
    {
      if i < |a| {
        assert c[i] == a[i];
      } else {
        assert c[i] == b[i - |a|];
      }
    }
  }

  /** Every candidate is the result of a page of the index. */
  lemma CandidateFromIndex(index: seq<IndexEntry>, lq: string, x: SearchResult)
    requires x in Candidates(index, lq)
    ensures x.page in index && Evaluate(x.page, lq) == Some(x)
  {
    PresentIff(Evaluated(index, lq), x);
  }

  /** Every page of the index that matches has its result among the candidates. */
  lemma MatchingPageIsCandidate(index: seq<IndexEntry>, lq: string, p: IndexEntry)
    requires p in index && Evaluate(p, lq).Some?
    ensures Evaluate(p, lq).value in Candidates(index, lq)
  {
    var i :| 0 <= i < |index| && index[i] == p;
    PresentIff(Evaluated(index, lq), Evaluate(p, lq).value);
    assert Evaluated(index, lq)[i] == Evaluate(p, lq);
  }

  // ---------------------------------------------------------------------------
  // Stable sort by descending score

  /** Non-increasing scores. */
  predicate SortedByScore(xs: seq<SearchResult>)
  {
    forall i, j :: 0 <= i < j < |xs| ==> xs[i].score >= xs[j].score
  }

  /** The results of `xs` whose score is `s`, in their order in `xs`. */
  function WithScore(xs: seq<SearchResult>, s: int): (r: seq<SearchResult>)
    ensures |r| <= |xs|
  {
    if xs == [] then []
    else (if xs[0].score == s then [xs[0]] else []) + WithScore(xs[1..], s)
  }

  /** A score with results occurs in `xs`. */
  lemma {:induction false} WithScoreOccurs(xs: seq<SearchResult>, s: int)
    requires WithScore(xs, s) != []
    ensures exists i :: 0 <= i < |xs| && xs[i].score == s
  {
    if xs[0].score != s {
      WithScoreOccurs(xs[1..], s);
      var i :| 0 <= i < |xs[1..]| && xs[1..][i].score == s;
      assert xs[i + 1].score == s;
    }
  }

  /**
   * Puts `x` in front of the first result whose score is not higher, so it
   * lands before every result of equal score.
   */
  function Insert(x: SearchResult, ys: seq<SearchResult>): (r: seq<SearchResult>)
    ensures multiset(r) == multiset(ys) + multiset{x}
  {
    if ys == [] || x.score >= ys[0].score then [x] + ys
    else
      assert ys == [ys[0]] + ys[1..];
      [ys[0]] + Insert(x, ys[1..])
  }

  /** `.sort((a, b) => b.score - a.score)` on an ES2019 engine, whose sort is stable. */
  function StableSort(xs: seq<SearchResult>): (r: seq<SearchResult>)
    ensures multiset(r) == multiset(xs)
  {
    if xs == [] then []
    else
      assert xs == [xs[0]] + xs[1..];
      Insert(xs[0], StableSort(xs[1..]))
  }

  lemma {:induction false} InsertSorted(x: SearchResult, ys: seq<SearchResult>)
    requires SortedByScore(ys)
    ensures SortedByScore(Insert(x, ys))
  {
    if ys != [] && x.score < ys[0].score {
      InsertSorted(x, ys[1..]);
      var r := Insert(x, ys);
      var t := Insert(x, ys[1..]);
      assert r == [ys[0]] + t;
      forall j | 0 <= j < |t|
        ensures ys[0].score >= t[j].score
      {
        assert t[j] in multiset(t);
        assert t[j] == x || t[j] in multiset(ys[1..]);
      }
    }
  }

  lemma {:induction false} InsertWithScore(x: SearchResult, ys: seq<SearchResult>, s: int)
    requires SortedByScore(ys)
    ensures WithScore(Insert(x, ys), s) == (if x.score == s then [x] else []) + WithScore(ys, s)
  {
    if ys == [] || x.score >= ys[0].score {
      assert ([x] + ys)[1..] == ys;
    } else {
      InsertWithScore(x, ys[1..], s);
      var t := Insert(x, ys[1..]);
      assert Insert(x, ys) == [ys[0]] + t;
      assert ([ys[0]] + t)[1..] == t;
      assert ys[0].score == s ==> x.score != s;
    }
  }

  /** The sort orders by non-increasing score. */
  lemma {:induction false} StableSortSorted(xs: seq<SearchResult>)
    ensures SortedByScore(StableSort(xs))
  {
    if xs != [] {
      StableSortSorted(xs[1..]);
      InsertSorted(xs[0], StableSort(xs[1..]));
    }
  }

  /** The sort is stable: the results of any one score keep their order. */
  lemma {:induction false} StableSortKeepsTies(xs: seq<SearchResult>, s: int)
    ensures WithScore(StableSort(xs), s) == WithScore(xs, s)
  {
    if xs != [] {
      StableSortKeepsTies(xs[1..], s);
      StableSortSorted(xs[1..]);
      InsertWithScore(xs[0], StableSort(xs[1..]), s);
    }
  }

  lemma NonEmptyHasScore(xs: seq<SearchResult>)
    requires xs != []
    ensures WithScore(xs, xs[0].score) != []
  {
  }

  /** A sorted list with results of score `s` starts with a score of at least `s`. */
  lemma SortedHeadBound(xs: seq<SearchResult>, s: int)
    requires SortedByScore(xs) && WithScore(xs, s) != []
    ensures xs[0].score >= s
  {
    WithScoreOccurs(xs, s);
  }

  /** Two lists with the same first result and the same results of score `s` agree on `s` past the first. */
  lemma WithScoreTail(a: seq<SearchResult>, b: seq<SearchResult>, s: int)
    requires a != [] && b != [] && a[0] == b[0] && WithScore(a, s) == WithScore(b, s)
    ensures WithScore(a[1..], s) == WithScore(b[1..], s)
  {
    var n := if a[0].score == s then 1 else 0;
    assert WithScore(a[1..], s) == WithScore(a, s)[n..];
    assert WithScore(b[1..], s) == WithScore(b, s)[n..];
  }

  /**
   * Sorted order and the order within each score fix a list completely: two
   * lists sorted by score that agree on every score's subsequence are equal.
   * So any stable sort by descending score gives the same list.
   */
  lemma {:induction false} StableOrderUnique(a: seq<SearchResult>, b: seq<SearchResult>)
    requires SortedByScore(a) && SortedByScore(b)
    requires forall s :: WithScore(a, s) == WithScore(b, s)
    ensures a == b
    decreases |a|
  {
    if a == [] {
      if b != [] {
        NonEmptyHasScore(b);
        assert false;
      }
    } else if b == [] {
      NonEmptyHasScore(a);
      assert false;
    } else {
      var m, n := a[0].score, b[0].score;
      assert WithScore(a, m) != [] && WithScore(b, n) != [];
      SortedHeadBound(b, m);
      SortedHeadBound(a, n);
      assert WithScore(a, m)[0] == a[0] && WithScore(b, m)[0] == b[0];
      forall s
        ensures WithScore(a[1..], s) == WithScore(b[1..], s)
      {
        WithScoreTail(a, b, s);
      }
      StableOrderUnique(a[1..], b[1..]);
      assert a == [a[0]] + a[1..] && b == [b[0]] + b[1..];
    }
  }

  // ---------------------------------------------------------------------------
  // The pipeline

  /** The first `MaxResults` results, or all of them when there are fewer. */
  function Top(xs: seq<SearchResult>): (r: seq<SearchResult>)
    ensures |r| <= MaxResults
    ensures |xs| <= MaxResults ==> r == xs
    ensures |xs| > MaxResults ==> |r| == MaxResults
    ensures r <= xs
  {
    if |xs| <= MaxResults then xs else xs[..MaxResults]
  }

  /**
   * `performSearch(query)`: the matching pages' results, best score first, at
   * most ten; when no more than ten pages match, all of them.
   */
  function PerformSearch(index: seq<IndexEntry>, query: string): (r: seq<SearchResult>)
    ensures |r| <= MaxResults
    ensures SortedByScore(r)
    ensures forall x :: x in r ==> x.page in index && Evaluate(x.page, Lower(query)) == Some(x)
    ensures |Candidates(index, Lower(query))| <= MaxResults ==> multiset(r) == multiset(Candidates(index, Lower(query)))
  {
    var c := Candidates(index, Lower(query));
    var all := StableSort(c);
    StableSortSorted(c);
    var r := Top(all);
    forall x | x in r
      ensures x.page in index && Evaluate(x.page, Lower(query)) == Some(x)
    {
      assert x in multiset(all);
      CandidateFromIndex(index, Lower(query), x);
    }
    r
  }

  /**
   * The output is the first min(10, n) results of ANY list of the candidates
   * sorted stably by descending score.
   */
  lemma PerformSearchIsTopOfStableOrder(index: seq<IndexEntry>, query: string, sorted: seq<SearchResult>)
    requires SortedByScore(sorted)
    requires forall s :: WithScore(sorted, s) == WithScore(Candidates(index, Lower(query)), s)
    ensures PerformSearch(index, query) == Top(sorted)
  {
    var c := Candidates(index, Lower(query));
    StableSortSorted(c);
    forall s
      ensures WithScore(StableSort(c), s) == WithScore(sorted, s)
    {
      StableSortKeepsTies(c, s);
    }
    StableOrderUnique(StableSort(c), sorted);
  }

  /** The results of one score in a prefix are a prefix of that score's results. */
  lemma {:induction false} WithScorePrefix(xs: seq<SearchResult>, n: nat, s: int)
    requires n <= |xs|
    ensures WithScore(xs[..n], s) <= WithScore(xs, s)
  {
    if n > 0 {
      WithScorePrefix(xs[1..], n - 1, s);
      assert xs[..n][1..] == xs[1..][..n - 1];
    }
  }

  /**
   * Ties in the output keep index order: the shown results of each score are
   * the first ones of that score among the candidates.
   */
  lemma PerformSearchKeepsTies(index: seq<IndexEntry>, query: string, s: int)
    ensures WithScore(PerformSearch(index, query), s) <= WithScore(Candidates(index, Lower(query)), s)
  {
    var c := Candidates(index, Lower(query));
    var all := StableSort(c);
    var r := PerformSearch(index, query);
    assert r == all[..|r|];
    WithScorePrefix(all, |r|, s);
    StableSortKeepsTies(c, s);
  }

  /**
   * A page shows up in the results only when its title or one of its headings
   * contains the query; when no more than ten pages match, every matching
   * page shows up.
   */
  lemma PageShownIffMatches(index: seq<IndexEntry>, query: string, p: IndexEntry)
    ensures (exists x :: x in PerformSearch(index, query) && x.page == p) ==>
      p in index && (Hit(p.title, Lower(query)) || exists h :: h in p.headings && Hit(h, Lower(query)))
    ensures (p in index && (Hit(p.title, Lower(query)) || exists h :: h in p.headings && Hit(h, Lower(query))) &&
             |Candidates(index, Lower(query))| <= MaxResults) ==>
      exists x :: x in PerformSearch(index, query) && x.page == p
  {
    var lq := Lower(query);
    EvaluateMatches(p, lq);
    if p in index && Evaluate(p, lq).Some? && |Candidates(index, lq)| <= MaxResults {
      var x := Evaluate(p, lq).value;
      MatchingPageIsCandidate(index, lq, p);
      assert x in multiset(Candidates(index, lq));
      assert x in multiset(PerformSearch(index, query));
    }
  }

  /**
   * Two matching pages come out by score, higher first; on equal scores the
   * one earlier in the index comes first.
   */
  lemma TwoMatchingPages(a: IndexEntry, b: IndexEntry, query: string)
    requires Evaluate(a, Lower(query)).Some? && Evaluate(b, Lower(query)).Some?
    ensures var x, y := Evaluate(a, Lower(query)).value, Evaluate(b, Lower(query)).value;
      PerformSearch([a, b], query) == if x.score >= y.score then [x, y] else [y, x]
  {
    var lq := Lower(query);
    var x, y := Evaluate(a, lq).value, Evaluate(b, lq).value;
    PresentOfTwo(Evaluated([a, b], lq), x, y);
    SortTwo(x, y);
  }

  lemma PresentOfTwo<T>(os: seq<Option<T>>, x: T, y: T)
    requires os == [Some(x), Some(y)]
    ensures Present(os) == [x, y]
  {
    assert os[1..] == [Some(y)] && os[1..][1..] == [];
  }

  /** The stable sort of two results. */
  lemma SortTwo(x: SearchResult, y: SearchResult)
    ensures StableSort([x, y]) == if x.score >= y.score then [x, y] else [y, x]
  {
    assert [x, y][1..] == [y] && [y][1..] == [];
    assert StableSort([y]) == [y];
  }

  /**
   * A page whose title is the query outranks a page that only has one
   * matching heading: 175 against 10.
   */
  lemma ExactTitleBeforeHeadingHit(a: IndexEntry, b: IndexEntry, query: string)
    requires Lower(a.title) == Lower(query) && HeadingMatches(a.headings, Lower(query)) == []
    requires !Hit(b.title, Lower(query)) && |HeadingMatches(b.headings, Lower(query))| == 1
    ensures PerformSearch([a, b], query) ==
      [SearchResult(a, [], 175), SearchResult(b, HeadingMatches(b.headings, Lower(query)), 10)]
  {
    var lq := Lower(query);
    EqualStartsIncludes(Lower(a.title), lq);
    TwoMatchingPages(a, b, query);
  }
}

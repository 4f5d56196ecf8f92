/**
 * The two pure callbacks of the client's `useNewsScraper` hook: keyword
 * filtering and sorting of the article list. `Array.prototype.sort` is
 * modelled as a stable insertion sort driven by the same comparator; the
 * date parser and `localeCompare` are parameters.
 */
module NewsHook {
  import opened Wrappers
  import opened Text
  import opened Seqs
  import opened Platform
  import opened Articles

  // ---------------------------------------------------------------------------
  // filterArticles
  // ---------------------------------------------------------------------------

  /** A field that is truthy and, lower-cased, contains the keyword. */
  predicate FieldMatches(field: string, lowerKeyword: string) {
    field != "" && Contains(ToLower(field), lowerKeyword)
  }

  /** The headline, summary, author or source matches. */
  predicate MatchesKeyword(a: Article, lowerKeyword: string) {
    FieldMatches(a.headline, lowerKeyword) || FieldMatches(a.summary, lowerKeyword)
    || FieldMatches(a.author, lowerKeyword) || FieldMatches(a.source, lowerKeyword)
  }

  /** The filter callback for one keyword. */
  function Matcher(lowerKeyword: string): Article -> bool {
    (a: Article) => MatchesKeyword(a, lowerKeyword)
  }

  /** A keyword that filters nothing out: empty or whitespace only. */
  predicate BlankKeyword(keyword: string) {
    keyword == "" || Trim(keyword) == ""
  }

  /** `filterArticles(articles, keyword)`. */
  function FilterArticles(articles: seq<Article>, keyword: string): (r: seq<Article>)
    ensures BlankKeyword(keyword) ==> r == articles
    ensures !BlankKeyword(keyword) ==> forall i :: 0 <= i < |r| ==> MatchesKeyword(r[i], Trim(ToLower(keyword)))
  {
    if BlankKeyword(keyword) then articles
    else Filter(articles, Matcher(Trim(ToLower(keyword))))
  }

  /**
   * For a keyword with content, exactly the matching articles are kept, in
   * their original order.
   */
  lemma FilterArticlesKeepsMatches(articles: seq<Article>, keyword: string)
    requires !BlankKeyword(keyword)
    ensures var r := FilterArticles(articles, keyword);
      IsSubseq(r, articles)
      && (forall i :: 0 <= i < |r| ==> MatchesKeyword(r[i], Trim(ToLower(keyword))))
      && (forall i :: 0 <= i < |articles| && MatchesKeyword(articles[i], Trim(ToLower(keyword))) ==> articles[i] in r)
  {
    FilterKeepsAll(articles, Matcher(Trim(ToLower(keyword))));
  }

  /** Every copy of a matching article is kept, and no copy of any other. */
  lemma FilterArticlesCounts(articles: seq<Article>, keyword: string, a: Article)
    requires !BlankKeyword(keyword)
    ensures multiset(FilterArticles(articles, keyword))[a]
      == if MatchesKeyword(a, Trim(ToLower(keyword))) then multiset(articles)[a] else 0
  {
    var m := Matcher(Trim(ToLower(keyword)));
    FilterCount(articles, m, a);
    assert m(a) == MatchesKeyword(a, Trim(ToLower(keyword)));
  }

  /** Filtering twice with the same keyword is filtering once. */
  lemma FilterArticlesIdempotent(articles: seq<Article>, keyword: string)
    ensures FilterArticles(FilterArticles(articles, keyword), keyword) == FilterArticles(articles, keyword)
  {
    if !BlankKeyword(keyword) {
      FilterIdempotent(articles, Matcher(Trim(ToLower(keyword))));
    }
  }

  // ---------------------------------------------------------------------------
  // sortArticles
  // ---------------------------------------------------------------------------

  /** A sort comparator: negative, zero or positive, as JavaScript reads it. */
  type Comparator = (Article, Article) -> int

  /** A comparator that never puts both `a` after `b` and `b` after `a`. */
  ghost predicate Antisymmetric(cmp: Comparator) {
    forall a, b :: cmp(a, b) > 0 ==> cmp(b, a) <= 0
  }

  /** Inserts `x` after the last element that does not compare greater than it. */
  function Insert(sorted: seq<Article>, x: Article, cmp: Comparator): (r: seq<Article>)
    ensures |r| == |sorted| + 1
    ensures multiset(r) == multiset(sorted) + multiset{x}
    ensures r[|sorted|] == x || (sorted != [] && r[|sorted|] == sorted[|sorted| - 1])
  {
    if sorted == [] then [x]
    else
      var init, last := sorted[..|sorted| - 1], sorted[|sorted| - 1];
      assert sorted == init + [last];
      if cmp(last, x) > 0 then Insert(init, x, cmp) + [last] else sorted + [x]
  }

  /** A stable sort of `s` by `cmp`, one element at a time. */
  function InsertionSort(s: seq<Article>, cmp: Comparator): (r: seq<Article>)
    ensures |r| == |s|
    ensures multiset(r) == multiset(s)
  {
    if s == [] then []
    else
      assert s == s[..|s| - 1] + [s[|s| - 1]];
      Insert(InsertionSort(s[..|s| - 1], cmp), s[|s| - 1], cmp)
  }

  /** Neighbours `k` and `k + 1` are in `cmp` order. */
  predicate InOrderAt(r: seq<Article>, cmp: Comparator, k: int)
    requires 0 <= k < |r| - 1
  {
    cmp(r[k], r[k + 1]) <= 0
  }

  predicate AdjacentSorted(r: seq<Article>, cmp: Comparator) {
    forall k :: 0 <= k < |r| - 1 ==> InOrderAt(r, cmp, k)
  }

  lemma {:induction false} InsertKeepsOrder(sorted: seq<Article>, x: Article, cmp: Comparator)
    requires Antisymmetric(cmp) && AdjacentSorted(sorted, cmp)
    ensures AdjacentSorted(Insert(sorted, x, cmp), cmp)
  {
    if sorted != [] {
      var init, last := sorted[..|sorted| - 1], sorted[|sorted| - 1];
      var r := Insert(sorted, x, cmp);
      if cmp(last, x) > 0 {
        assert AdjacentSorted(init, cmp) by {
          forall k | 0 <= k < |init| - 1 ensures InOrderAt(init, cmp, k) {
            assert InOrderAt(sorted, cmp, k);
          }
        }
        InsertKeepsOrder(init, x, cmp);
        var front := Insert(init, x, cmp);
        assert r == front + [last];
        forall k | 0 <= k < |r| - 1 ensures InOrderAt(r, cmp, k) {
          if k < |front| - 1 {
            assert InOrderAt(front, cmp, k);
          } else if front[k] != x {
            assert InOrderAt(sorted, cmp, |sorted| - 2);
          }
        }
      } else {
        forall k | 0 <= k < |r| - 1 ensures InOrderAt(r, cmp, k) {
          if k < |sorted| - 1 { assert InOrderAt(sorted, cmp, k); }
        }
      }
    }
  }

  /** With an antisymmetric comparator, no two neighbours of the result are out of order. */
  lemma {:induction false} InsertionSortOrders(s: seq<Article>, cmp: Comparator)
    requires Antisymmetric(cmp)
    ensures AdjacentSorted(InsertionSort(s, cmp), cmp)
  {
    if s != [] {
      InsertionSortOrders(s[..|s| - 1], cmp);
      InsertKeepsOrder(InsertionSort(s[..|s| - 1], cmp), s[|s| - 1], cmp);
    }
  }

  predicate Dated(a: Article) { a.publishDate != "" }

  /**
   * The `"date"` comparator: undated articles after dated ones, dated ones
   * newest first. A date that does not parse makes the difference NaN,
   * which the sort reads as 0.
   */
  function ByDate(dates: DateParser): Comparator {
    (a: Article, b: Article) =>
      if !Dated(a) && !Dated(b) then 0
      else if !Dated(a) then 1
      else if !Dated(b) then -1
      else match (dates(a.publishDate), dates(b.publishDate))
        case (Some(ta), Some(tb)) => tb - ta
        case _ => 0
  }

  /** The `"relevance"` comparator: `localeCompare` of the headlines. */
  function ByHeadline(collate: (string, string) -> int): Comparator {
    (a: Article, b: Article) => collate(a.headline, b.headline)
  }

  /** The `"source"` comparator: `localeCompare` of the sources. */
  function BySource(collate: (string, string) -> int): Comparator {
    (a: Article, b: Article) => collate(a.source, b.source)
  }

  lemma ByDateAntisymmetric(dates: DateParser)
    ensures Antisymmetric(ByDate(dates))
  {
    var cmp := ByDate(dates);
    forall a, b | cmp(a, b) > 0 ensures cmp(b, a) <= 0 {
      if Dated(a) && Dated(b) && dates(a.publishDate).Some? && dates(b.publishDate).Some? {
        assert cmp(b, a) == dates(a.publishDate).value - dates(b.publishDate).value;
      }
    }
  }

  /** Every dated article comes before every undated one. */
  predicate DatedFirst(r: seq<Article>) {
    forall i, j :: 0 <= i < j < |r| && Dated(r[j]) ==> Dated(r[i])
  }

  lemma {:induction false} NeighboursGiveDatedFirst(r: seq<Article>, dates: DateParser)
    requires AdjacentSorted(r, ByDate(dates))
    ensures DatedFirst(r)
  {
    if r != [] {
      var init := r[..|r| - 1];
      assert AdjacentSorted(init, ByDate(dates)) by {
        forall k | 0 <= k < |init| - 1 ensures InOrderAt(init, ByDate(dates), k) {
          assert InOrderAt(r, ByDate(dates), k);
        }
      }
      NeighboursGiveDatedFirst(init, dates);
      forall i, j | 0 <= i < j < |r| && Dated(r[j]) ensures Dated(r[i]) {
        if j < |r| - 1 {
          assert init[i] == r[i] && init[j] == r[j];
        } else {
          assert InOrderAt(r, ByDate(dates), j - 1);
          if i < j - 1 { assert init[i] == r[i] && init[j - 1] == r[j - 1]; }
        }
      }
    }
  }

  /** The sort keys the code recognises. */
  predicate KnownSort(sortBy: string) {
    sortBy == "date" || sortBy == "relevance" || sortBy == "source"
  }

  /** `sortArticles(articles, sortBy)`: a sorted copy; the input list is a value and is never changed. */
  function SortArticles(articles: seq<Article>, sortBy: string, dates: DateParser, collate: (string, string) -> int): (r: seq<Article>)
    ensures articles == [] ==> r == []
    ensures |r| == |articles| && multiset(r) == multiset(articles)
    ensures !KnownSort(sortBy) ==> r == articles
    ensures sortBy == "date" ==> DatedFirst(r) && AdjacentSorted(r, ByDate(dates))
  {
    if articles == [] then []
    else if sortBy == "date" then
      ByDateAntisymmetric(dates);
      InsertionSortOrders(articles, ByDate(dates));
      NeighboursGiveDatedFirst(InsertionSort(articles, ByDate(dates)), dates);
      InsertionSort(articles, ByDate(dates))
    else if sortBy == "relevance" then InsertionSort(articles, ByHeadline(collate))
    else if sortBy == "source" then InsertionSort(articles, BySource(collate))
    else articles
  }

  /** The date sort is newest first: of two neighbouring articles whose dates both parse, the earlier one is not older. */
  lemma DateSortNewestFirst(articles: seq<Article>, dates: DateParser, collate: (string, string) -> int, k: int)
    requires 0 <= k < |articles| - 1
    ensures var r := SortArticles(articles, "date", dates, collate);
      (Dated(r[k]) && Dated(r[k + 1]) && dates(r[k].publishDate).Some? && dates(r[k + 1].publishDate).Some?) ==>
        dates(r[k].publishDate).value >= dates(r[k + 1].publishDate).value
  {
    var r := SortArticles(articles, "date", dates, collate);
    assert InOrderAt(r, ByDate(dates), k);
  }

  /** With a `localeCompare` that never orders two strings both ways, headline and source sorts order every neighbour. */
  lemma CollationSortsOrder(articles: seq<Article>, sortBy: string, dates: DateParser, collate: (string, string) -> int)
    requires forall x, y :: collate(x, y) > 0 ==> collate(y, x) <= 0
    requires sortBy == "relevance" || sortBy == "source"
    ensures sortBy == "relevance" ==> AdjacentSorted(SortArticles(articles, sortBy, dates, collate), ByHeadline(collate))
    ensures sortBy == "source" ==> AdjacentSorted(SortArticles(articles, sortBy, dates, collate), BySource(collate))
  {
    if sortBy == "relevance" {
      var cmp := ByHeadline(collate);
      forall a, b | cmp(a, b) > 0 ensures cmp(b, a) <= 0 {
        assert cmp(a, b) == collate(a.headline, b.headline) && cmp(b, a) == collate(b.headline, a.headline);
      }
      InsertionSortOrders(articles, ByHeadline(collate));
    } else {
      var cmp := BySource(collate);
      forall a, b | cmp(a, b) > 0 ensures cmp(b, a) <= 0 {
        assert cmp(a, b) == collate(a.source, b.source) && cmp(b, a) == collate(b.source, a.source);
      }
      InsertionSortOrders(articles, BySource(collate));
    }
  }
}

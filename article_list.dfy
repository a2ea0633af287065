/**
  The article list of web/src/pages/Home.page.tsx: the list is first put in the chosen sort
  order, then narrowed by the status, language and search filters, then cut into the current
  page. The central facts: the result is the filtered list in sort order (filtering and
  sorting commute), it holds exactly the articles the filters keep, metric orders are stable,
  and filtering again changes nothing.
*/
module ArticleList {
  import opened Wrappers
  import opened Strings
  import opened Seqs
  import opened StableSort
  import opened Translations
  import opened ViewTypes

  /** `TranslationStatus | 'all'`. */
  datatype StatusFilter = AnyStatus | StatusIs(status: Status)

  /** `LanguageCodeWithAll`. */
  datatype LanguageFilter = AnyLanguage | LanguageIs(code: string)

  /** `x || 0` on a metric that may be missing. */
  function OrZero(v: Option<int>): int {
    if v.Some? then v.value else 0
  }

  /**
    The value a sort mode compares, read from the article's `en` record. An article without
    one has no value (the source would fail reading it); 0 stands in, and `SortDefined`
    rules out the lists on which the comparator would reach such an article.
  */
  function Metric(mode: SortMode, a: Article): int {
    if "en" !in a.translations then 0
    else
      var en := a.translations["en"];
      match mode
      case Views => OrZero(en.views)
      case NewUsers => OrZero(en.newUsers)
      case UpdatedAt => en.englishLatestDate
      case AverageSessionDuration => OrZero(en.averageSessionDuration)
      case Default => 0
  }

  function MetricOf(mode: SortMode): Article -> int {
    a => Metric(mode, a)
  }

  /** The comparator `a.m - b.m` (ascending) or `b.m - a.m` (descending) as an ordering. */
  function Order(mode: SortMode, dir: SortDirection): (Article, Article) -> bool {
    if dir.Asc? then ByKeyAscending(MetricOf(mode)) else ByKeyDescending(MetricOf(mode))
  }

  lemma OrderTotal(mode: SortMode, dir: SortDirection)
    ensures TotalPreorder(Order(mode, dir))
  {
    ByKeyTotal(MetricOf(mode));
  }

  /** A metric sort of two or more articles reads every article's `en` record. */
  predicate SortDefined(s: seq<Article>, mode: SortMode) {
    mode.Default? || |s| <= 1 || forall k :: 0 <= k < |s| ==> "en" in s[k].translations
  }

  /** The `sortMode` branch of `getFilteredArticles`. */
  function SortArticles(s: seq<Article>, mode: SortMode, dir: SortDirection): seq<Article>
    requires SortDefined(s, mode)
  {
    if mode.Default? then (if dir.Asc? then Reverse(s) else s)
    else Sort(s, Order(mode, dir))
  }

  /** The status test: over every translation, or over the filtered language's only. */
  predicate StatusMatches(a: Article, status: Status, lang: LanguageFilter) {
    match lang
    case AnyLanguage => exists code | code in a.translations :: a.translations[code].status == status
    case LanguageIs(code) => code in a.translations && a.translations[code].status == status
  }

  /** Everything the three filters ask of an article. */
  predicate Keep(a: Article, status: StatusFilter, lang: LanguageFilter, query: string) {
    && (status.StatusIs? ==> StatusMatches(a, status.status, lang))
    && (lang.LanguageIs? && status.AnyStatus? ==> lang.code in a.translations)
    && (query != "" ==> Contains(Lower(a.englishPath), Lower(query)))
  }

  function KeepCond(status: StatusFilter, lang: LanguageFilter, query: string): Article -> bool {
    a => Keep(a, status, lang, query)
  }

  function StatusCond(status: Status, lang: LanguageFilter): Article -> bool {
    a => StatusMatches(a, status, lang)
  }

  function HasLanguage(code: string): Article -> bool {
    (a: Article) => code in a.translations
  }

  function MatchesQuery(lowerQuery: string): Article -> bool {
    (a: Article) => Contains(Lower(a.englishPath), lowerQuery)
  }

  /** `if (statusFilter !== 'all')`. */
  function StatusStage(s: seq<Article>, status: StatusFilter, lang: LanguageFilter): seq<Article> {
    if status.AnyStatus? then s else Filter(s, StatusCond(status.status, lang))
  }

  /** `if (languageFilter !== 'all' && statusFilter === 'all')`. */
  function LanguageStage(s: seq<Article>, status: StatusFilter, lang: LanguageFilter): seq<Article> {
    if lang.LanguageIs? && status.AnyStatus? then Filter(s, HasLanguage(lang.code)) else s
  }

  /** `if (debouncedSearchQuery)`: case-insensitive substring search in the English path. */
  function SearchStage(s: seq<Article>, query: string): seq<Article> {
    if query == "" then s else Filter(s, MatchesQuery(Lower(query)))
  }

  function FilterStages(s: seq<Article>, status: StatusFilter, lang: LanguageFilter, query: string): seq<Article> {
    SearchStage(LanguageStage(StatusStage(s, status, lang), status, lang), query)
  }

  /** `getFilteredArticles`. */
  function FilteredArticles(articles: seq<Article>, status: StatusFilter, lang: LanguageFilter, query: string,
                            mode: SortMode, dir: SortDirection): seq<Article>
    requires SortDefined(articles, mode)
  {
    FilterStages(SortArticles(articles, mode, dir), status, lang, query)
  }

  function StatusPart(status: StatusFilter, lang: LanguageFilter): Article -> bool {
    (a: Article) => status.StatusIs? ==> StatusMatches(a, status.status, lang)
  }

  function LanguagePart(status: StatusFilter, lang: LanguageFilter): Article -> bool {
    (a: Article) => lang.LanguageIs? && status.AnyStatus? ==> lang.code in a.translations
  }

  function SearchPart(query: string): Article -> bool {
    (a: Article) => query != "" ==> Contains(Lower(a.englishPath), Lower(query))
  }

  lemma StatusStageFilter(s: seq<Article>, status: StatusFilter, lang: LanguageFilter)
    ensures StatusStage(s, status, lang) == Filter(s, StatusPart(status, lang))
  {
    if status.AnyStatus? {
      FilterAll(s, StatusPart(status, lang));
    } else {
      FilterExtensional(s, StatusCond(status.status, lang), StatusPart(status, lang));
    }
  }

  lemma LanguageStageFilter(s: seq<Article>, status: StatusFilter, lang: LanguageFilter)
    ensures LanguageStage(s, status, lang) == Filter(s, LanguagePart(status, lang))
  {
    if lang.LanguageIs? && status.AnyStatus? {
      FilterExtensional(s, HasLanguage(lang.code), LanguagePart(status, lang));
    } else {
      FilterAll(s, LanguagePart(status, lang));
    }
  }

  lemma SearchStageFilter(s: seq<Article>, query: string)
    ensures SearchStage(s, query) == Filter(s, SearchPart(query))
  {
    if query == "" {
      FilterAll(s, SearchPart(query));
    } else {
      FilterExtensional(s, MatchesQuery(Lower(query)), SearchPart(query));
    }
  }

  /** The three stages together keep exactly the articles `Keep` accepts, in order. */
  lemma FilterStagesKeep(s: seq<Article>, status: StatusFilter, lang: LanguageFilter, query: string)
    ensures FilterStages(s, status, lang, query) == Filter(s, KeepCond(status, lang, query))
  {
    var p1, p2, p3 := StatusPart(status, lang), LanguagePart(status, lang), SearchPart(query);
    var s1 := StatusStage(s, status, lang);
    var s2 := LanguageStage(s1, status, lang);
    StatusStageFilter(s, status, lang);
    LanguageStageFilter(s1, status, lang);
    SearchStageFilter(s2, query);
    FilterFilter(s, p1, p2);
    FilterFilter(s, And(p1, p2), p3);
    FilterExtensional(s, And(And(p1, p2), p3), KeepCond(status, lang, query));
  }

  lemma SortDefinedFilter(s: seq<Article>, mode: SortMode, p: Article -> bool)
    requires SortDefined(s, mode)
    ensures SortDefined(Filter(s, p), mode)
  {
    var f := Filter(s, p);
    if !mode.Default? && |s| > 1 {
      forall k | 0 <= k < |f| ensures "en" in f[k].translations {
        var j :| 0 <= j < |s| && s[j] == f[k];
      }
    }
  }

  /** Filtering after sorting is sorting the filtered list: the filters never disturb the order. */
  lemma FilteredIsSortedSelection(articles: seq<Article>, status: StatusFilter, lang: LanguageFilter, query: string,
                                  mode: SortMode, dir: SortDirection)
    requires SortDefined(articles, mode)
    ensures SortDefined(Filter(articles, KeepCond(status, lang, query)), mode)
    ensures FilteredArticles(articles, status, lang, query, mode, dir)
         == SortArticles(Filter(articles, KeepCond(status, lang, query)), mode, dir)
  {
    var keep := KeepCond(status, lang, query);
    SortDefinedFilter(articles, mode, keep);
    FilterStagesKeep(SortArticles(articles, mode, dir), status, lang, query);
    if mode.Default? {
      if dir.Asc? {
        FilterReverse(articles, keep);
      }
    } else {
      OrderTotal(mode, dir);
      FilterSort(articles, Order(mode, dir), keep);
    }
  }

  lemma SortArticlesMultiset(s: seq<Article>, mode: SortMode, dir: SortDirection)
    requires SortDefined(s, mode)
    ensures multiset(SortArticles(s, mode, dir)) == multiset(s)
  {
    if mode.Default? && dir.Asc? {
      ReverseMultiset(s);
    }
  }

  /** An article is listed exactly when it is in the category's list and every filter keeps it. */
  lemma FilteredMembership(articles: seq<Article>, status: StatusFilter, lang: LanguageFilter, query: string,
                           mode: SortMode, dir: SortDirection, x: Article)
    requires SortDefined(articles, mode)
    ensures x in FilteredArticles(articles, status, lang, query, mode, dir) <==> x in articles && Keep(x, status, lang, query)
  {
    var keep := KeepCond(status, lang, query);
    FilteredIsSortedSelection(articles, status, lang, query, mode, dir);
    var f := Filter(articles, keep);
    SortArticlesMultiset(f, mode, dir);
    assert x in SortArticles(f, mode, dir) <==> x in multiset(f);
    if x in articles && Keep(x, status, lang, query) {
      var j :| 0 <= j < |articles| && articles[j] == x;
      assert keep(articles[j]);
    }
  }

  /** In a metric mode the list is ordered by the metric, in the chosen direction. */
  lemma FilteredOrderedByMetric(articles: seq<Article>, status: StatusFilter, lang: LanguageFilter, query: string,
                                mode: SortMode, dir: SortDirection)
    requires SortDefined(articles, mode) && !mode.Default?
    ensures var r := FilteredArticles(articles, status, lang, query, mode, dir);
      forall i, j :: 0 <= i < j < |r| ==>
        if dir.Asc? then Metric(mode, r[i]) <= Metric(mode, r[j]) else Metric(mode, r[j]) <= Metric(mode, r[i])
  {
    FilteredIsSortedSelection(articles, status, lang, query, mode, dir);
    OrderTotal(mode, dir);
    SortSorted(Filter(articles, KeepCond(status, lang, query)), Order(mode, dir));
  }

  lemma OrderEquivalence(mode: SortMode, dir: SortDirection, x: Article, y: Article)
    ensures Order(mode, dir)(x, y) && Order(mode, dir)(y, x) <==> Metric(mode, x) == Metric(mode, y)
  {
  }

  /**
    The metric sorts are stable: the listed articles whose metric equals `y`'s appear in the
    order they have in the category's list.
  */
  lemma FilteredStable(articles: seq<Article>, status: StatusFilter, lang: LanguageFilter, query: string,
                       mode: SortMode, dir: SortDirection, y: Article)
    requires SortDefined(articles, mode) && !mode.Default?
    ensures Filter(FilteredArticles(articles, status, lang, query, mode, dir), SameMetric(mode, y))
         == Filter(Filter(articles, KeepCond(status, lang, query)), SameMetric(mode, y))
  {
    var le := Order(mode, dir);
    var f := Filter(articles, KeepCond(status, lang, query));
    var sorted := Sort(f, le);
    FilteredIsSortedSelection(articles, status, lang, query, mode, dir);
    OrderTotal(mode, dir);
    SortStable(f, le, y);
    var eq := EquivalentTo(le, y);
    forall k | 0 <= k < |sorted| ensures eq(sorted[k]) == SameMetric(mode, y)(sorted[k]) {
      OrderEquivalence(mode, dir, sorted[k], y);
    }
    forall k | 0 <= k < |f| ensures eq(f[k]) == SameMetric(mode, y)(f[k]) {
      OrderEquivalence(mode, dir, f[k], y);
    }
    FilterExtensional(sorted, eq, SameMetric(mode, y));
    FilterExtensional(f, eq, SameMetric(mode, y));
  }

  function SameMetric(mode: SortMode, y: Article): Article -> bool {
    a => Metric(mode, a) == Metric(mode, y)
  }

  /** In the default mode the list keeps the category's order (descending) or reverses it (ascending). */
  lemma FilteredDefaultOrder(articles: seq<Article>, status: StatusFilter, lang: LanguageFilter, query: string,
                             dir: SortDirection)
    ensures var f := Filter(articles, KeepCond(status, lang, query));
      FilteredArticles(articles, status, lang, query, Default, dir) == if dir.Asc? then Reverse(f) else f
  {
    FilteredIsSortedSelection(articles, status, lang, query, Default, dir);
  }

  /** Applying the filters to their own output changes nothing. */
  lemma FilterStagesIdempotent(s: seq<Article>, status: StatusFilter, lang: LanguageFilter, query: string)
    ensures FilterStages(FilterStages(s, status, lang, query), status, lang, query) == FilterStages(s, status, lang, query)
  {
    FilterStagesKeep(s, status, lang, query);
    FilterStagesKeep(FilterStages(s, status, lang, query), status, lang, query);
    FilterIdempotent(s, KeepCond(status, lang, query));
  }

  /**
    `getFilteredArticles` as the component runs it: the sort or reversal of a copy, then each
    filter stage reassigning `filtered` when its condition holds.
  */
  method GetFilteredArticles(articles: seq<Article>, status: StatusFilter, lang: LanguageFilter, query: string,
                             mode: SortMode, dir: SortDirection) returns (filtered: seq<Article>)
    requires SortDefined(articles, mode)
    ensures filtered == FilteredArticles(articles, status, lang, query, mode, dir)
    ensures forall x :: x in filtered <==> x in articles && Keep(x, status, lang, query)
  {
    filtered := SortArticles(articles, mode, dir);
    if status.StatusIs? {
      filtered := Filter(filtered, StatusCond(status.status, lang));
    }
    if lang.LanguageIs? && status.AnyStatus? {
      filtered := Filter(filtered, HasLanguage(lang.code));
    }
    if query != "" {
      filtered := Filter(filtered, MatchesQuery(Lower(query)));
    }
    forall x ensures x in filtered <==> x in articles && Keep(x, status, lang, query) {
      FilteredMembership(articles, status, lang, query, mode, dir, x);
    }
  }

  function Min(a: int, b: int): int {
    if a <= b then a else b
  }

  /** `(activePage - 1) * parseInt(itemsPerPage, 10)`. */
  function StartIndex(activePage: int, pageSize: nat): int {
    (activePage - 1) * pageSize
  }

  /** `Math.min(startIndex + pageSize, filteredArticles.length)`. */
  function EndIndex(activePage: int, pageSize: nat, total: nat): int {
    Min(StartIndex(activePage, pageSize) + pageSize, total)
  }

  /** `s.slice(start, end)` for non-negative bounds. */
  function Slice<T>(s: seq<T>, start: nat, end: nat): (r: seq<T>)
    ensures start < end && start < |s| ==> |r| == Min(end, |s|) - start
    ensures start >= end || start >= |s| ==> r == []
    ensures forall k :: 0 <= k < |r| ==> start + k < |s| && r[k] == s[start + k]
  {
    if start >= end || start >= |s| then [] else s[start..Min(end, |s|)]
  }

  /** `currentArticles`: the window of the filtered list shown on the active page. */
  function CurrentPage<T>(filtered: seq<T>, activePage: int, pageSize: nat): (r: seq<T>)
    requires activePage >= 1
    ensures |r| <= pageSize
    ensures forall k :: 0 <= k < |r| ==>
      StartIndex(activePage, pageSize) + k < |filtered| && r[k] == filtered[StartIndex(activePage, pageSize) + k]
    ensures StartIndex(activePage, pageSize) < |filtered| ==>
      |r| == Min(pageSize, |filtered| - StartIndex(activePage, pageSize))
    ensures StartIndex(activePage, pageSize) >= |filtered| ==> r == []
  {
    var start := StartIndex(activePage, pageSize);
    Slice(filtered, start, EndIndex(activePage, pageSize, |filtered|))
  }
}

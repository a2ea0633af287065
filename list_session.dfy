/**
  The list controls of web/src/features/ArticleListControl.tsx and the state the home page
  (web/src/pages/Home.page.tsx) keeps for them: the option lists, the handlers (each of which
  returns to the first page), the page count, the "Showing a-b of n" summary and the
  "filtered from" note. The debounce timer is not modelled: `TypeSearch` records what was
  typed and `CommitSearch` is the delayed callback.
*/
module ListSession {
  import opened Wrappers
  import opened Strings
  import opened Seqs
  import opened Translations
  import opened ViewTypes
  import opened LanguageCodes
  import opened ArticleList
  import SortMenu

  /** The page-size select's `data`. */
  const PageSizeOptions: seq<string> := ["30", "50", "100"]

  /** `parseInt(itemsPerPage, 10)` for one of the page-size options. */
  function PageSize(itemsPerPage: string): (r: nat)
    requires itemsPerPage in PageSizeOptions
    ensures r == 30 || r == 50 || r == 100
    ensures IntToString(r) == itemsPerPage
  {
    if itemsPerPage == "30" then 30 else if itemsPerPage == "50" then 50 else 100
  }

  /** `Math.ceil(count / pageSize)`. */
  function TotalPages(count: nat, pageSize: nat): (r: nat)
    requires pageSize > 0
    ensures count <= r * pageSize
    ensures r > 0 ==> (r - 1) * pageSize < count
  {
    (count + pageSize - 1) / pageSize
  }

  /** The pages `first`, `first + 1`, ... (`count` of them). */
  function Pages<T>(s: seq<T>, pageSize: nat, first: nat, count: nat): seq<seq<T>>
    requires first >= 1
    decreases count
  {
    if count == 0 then [] else [CurrentPage(s, first, pageSize)] + Pages(s, pageSize, first + 1, count - 1)
  }

  /** A page is the slice of the list between its bounds, clipped to the list. */
  lemma PageIsSlice<T>(s: seq<T>, first: nat, pageSize: nat)
    requires first >= 1
    ensures var start := StartIndex(first, pageSize);
      0 <= start && StartIndex(first + 1, pageSize) == start + pageSize
      && CurrentPage(s, first, pageSize) == s[Min(start, |s|)..Min(start + pageSize, |s|)]
  {
    var start := StartIndex(first, pageSize);
    assert (first + 1 - 1) * pageSize == (first - 1) * pageSize + pageSize;
  }

  lemma {:induction false} PagesFlatten<T>(s: seq<T>, pageSize: nat, first: nat, count: nat)
    requires pageSize > 0 && first >= 1
    requires |s| <= (first - 1 + count) * pageSize
    ensures Flatten(Pages(s, pageSize, first, count)) == s[Min(StartIndex(first, pageSize), |s|)..]
    decreases count
  {
    var start := StartIndex(first, pageSize);
    if count == 0 {
      assert start == (first - 1 + count) * pageSize;
    } else {
      PagesStep(s, pageSize, first, count);
      PageIsSlice(s, first, pageSize);
      assert first + 1 - 1 + (count - 1) == first - 1 + count;
      PagesFlatten(s, pageSize, first + 1, count - 1);
      SliceSplit(s, Min(start, |s|), Min(start + pageSize, |s|));
    }
  }

  /** The first page, then the rest. */
  lemma PagesStep<T>(s: seq<T>, pageSize: nat, first: nat, count: nat)
    requires first >= 1 && count > 0
    ensures Flatten(Pages(s, pageSize, first, count))
      == CurrentPage(s, first, pageSize) + Flatten(Pages(s, pageSize, first + 1, count - 1))
  {
    var pages := Pages(s, pageSize, first, count);
    assert pages[1..] == Pages(s, pageSize, first + 1, count - 1);
  }

  lemma SliceSplit<T>(s: seq<T>, i: nat, j: nat)
    requires i <= j <= |s|
    ensures s[i..] == s[i..j] + s[j..]
  {
  }

  /** The pages 1 .. `totalPages` together are the filtered list, each article once, in order. */
  lemma PagesCoverList<T>(s: seq<T>, pageSize: nat)
    requires pageSize > 0
    ensures Flatten(Pages(s, pageSize, 1, TotalPages(|s|, pageSize))) == s
  {
    PagesFlatten(s, pageSize, 1, TotalPages(|s|, pageSize));
  }

  /** "Showing {startIndex + 1}-{endIndex} of {filteredArticles.length} articles". */
  datatype Showing = Showing(first: int, last: int, total: nat)

  function ShowingLabel(activePage: int, pageSize: nat, total: nat): Showing {
    Showing(StartIndex(activePage, pageSize) + 1, EndIndex(activePage, pageSize, total), total)
  }

  /** On a page within the list, the summary counts exactly the articles the page shows. */
  lemma ShowingCountsPage<T>(filtered: seq<T>, activePage: int, pageSize: nat)
    requires activePage >= 1 && pageSize > 0 && StartIndex(activePage, pageSize) < |filtered|
    ensures var l := ShowingLabel(activePage, pageSize, |filtered|);
      l.last - l.first + 1 == |CurrentPage(filtered, activePage, pageSize)|
      && CurrentPage(filtered, activePage, pageSize)[0] == filtered[l.first - 1]
  {
  }

  /** The "(filtered from N total)" note: some filter other than the sort is active. */
  predicate FilterNoteShown(status: StatusFilter, lang: LanguageFilter, query: string) {
    status.StatusIs? || lang.LanguageIs? || query != ""
  }

  /** When the note is hidden, nothing has been filtered out. */
  lemma NoteHiddenMeansUnfiltered(s: seq<Article>, status: StatusFilter, lang: LanguageFilter, query: string)
    requires !FilterNoteShown(status, lang, query)
    ensures FilterStages(s, status, lang, query) == s
  {
  }

  /** A filtered-out article makes the note appear. */
  lemma FilteredOutShowsNote(s: seq<Article>, status: StatusFilter, lang: LanguageFilter, query: string)
    requires |FilterStages(s, status, lang, query)| < |s|
    ensures FilterNoteShown(status, lang, query)
  {
  }

  /** The language select's `onChange`: `(value || 'all')`. */
  function ParseLanguageFilter(value: Option<string>): LanguageFilter {
    if value.None? || value.value == "" || value.value == "all" then AnyLanguage else LanguageIs(value.value)
  }

  /** The status select's `onChange`: `(value as TranslationStatus | 'all') || 'all'`. */
  function ParseStatusFilter(value: Option<string>): StatusFilter {
    if value.None? || value.value == "" || value.value == "all" then AnyStatus
    else StatusIs(ParseStatus(value.value))
  }

  const PrFilterValues: seq<string> := ["all", "withPr", "withoutPr"]

  /** The pull-request select's `onChange`; it only offers its three values or a cleared choice. */
  function ParsePrFilter(value: Option<string>): PrStatus
    requires value.None? || value.value in PrFilterValues
  {
    if value == Some("withPr") then WithPr
    else if value == Some("withoutPr") then WithoutPr
    else AllPrs
  }

  /** `statusOptions`. */
  const StatusOptions: seq<LangEntry> := [
    LangEntry("all", "All Status"),
    LangEntry("up_to_date", "✅ Up to date"),
    LangEntry("outdated", "⚠️ Outdated"),
    LangEntry("not_translated", "— Not translated")
  ]

  /** Each status option selects the filter it is labelled with. */
  lemma StatusOptionsRoundTrip(s: Status)
    requires Declared(s)
    ensures ParseStatusFilter(Some(StatusName(s))) == StatusIs(s)
    ensures exists k :: 1 <= k < |StatusOptions| && StatusOptions[k].value == StatusName(s)
    ensures ParseStatusFilter(Some(StatusOptions[0].value)) == AnyStatus
  {
    match s
    case UpToDate => assert StatusOptions[1].value == StatusName(s);
    case Outdated => assert StatusOptions[2].value == StatusName(s);
    case NotTranslated => assert StatusOptions[3].value == StatusName(s);
  }

  /** `languageOptions`: "All Languages", then the column order without English. */
  function LanguageOptions(selected: seq<string>): seq<LangEntry>
    requires SelectionInCatalog(Some(selected))
  {
    [LangEntry("all", "All Languages")] + Filter(SortedLangCodes(Some(selected)), NotEnglishEntry())
  }

  /**
    The language options are "All Languages" followed by every other catalog language exactly
    once, each option selecting that language.
  */
  lemma LanguageOptionsShape(selected: seq<string>)
    requires SelectionInCatalog(Some(selected))
    ensures var opts := LanguageOptions(selected);
      && opts[0].value == "all" && ParseLanguageFilter(Some(opts[0].value)) == AnyLanguage
      && multiset(opts[1..]) == multiset(Filter(Catalog, NotEnglishEntry()))
      && (forall k :: 1 <= k < |opts| ==> ParseLanguageFilter(Some(opts[k].value)) == LanguageIs(opts[k].value))
  {
    var opts := LanguageOptions(selected);
    var sorted := SortedLangCodes(Some(selected));
    SortedLangCodesPermutation(Some(selected));
    FilterPermutation(sorted, Catalog, NotEnglishEntry());
    assert opts[1..] == Filter(sorted, NotEnglishEntry());
    forall k | 1 <= k < |opts| ensures opts[k].value != "" && opts[k].value != "all" {
      assert opts[k] in sorted;
      CatalogCodeLength(opts[k], sorted);
    }
  }

  lemma CatalogCodeLength(e: LangEntry, sorted: seq<LangEntry>)
    requires e in sorted && multiset(sorted) == multiset(Catalog)
    ensures |e.value| == 2 || |e.value| == 5
  {
    assert e in multiset(Catalog);
    CatalogCodeLengths();
  }

  /** The values the home page and its controls hold, as one record. */
  datatype Controls = Controls(
    category: string,
    activePage: int,
    itemsPerPage: string,
    statusFilter: StatusFilter,
    languageFilter: LanguageFilter,
    prFilter: PrStatus,
    searchQuery: string,
    debouncedSearchQuery: string,
    sortMode: SortMode,
    sortDirection: SortDirection)

  /**
    The initial `useState` values. The home page declares no pull-request filter state and
    passes none down; the model keeps it beside the others, starting at "all".
  */
  const InitialControls: Controls := Controls("docsConcept", 1, "30", AnyStatus, AnyLanguage, AllPrs, "", "", Default, Desc)

  /**
    `resetFilters` as intended: every filter, the search, the sort and the page return to their
    initial values; the category and the page size stay.
  */
  function Reset(c: Controls): (r: Controls)
    ensures r.category == c.category && r.itemsPerPage == c.itemsPerPage
    ensures !FilterNoteShown(r.statusFilter, r.languageFilter, r.debouncedSearchQuery) && r.searchQuery == ""
    ensures r.prFilter == AllPrs && r.activePage == 1 && r.sortMode == Default && r.sortDirection == Desc
  {
    InitialControls.(category := c.category, itemsPerPage := c.itemsPerPage)
  }

  /** After a reset, every article of the list is shown again, in the list's order. */
  lemma ResetUnfilters(s: seq<Article>, c: Controls)
    ensures var r := Reset(c);
      FilteredArticles(s, r.statusFilter, r.languageFilter, r.debouncedSearchQuery, r.sortMode, r.sortDirection) == s
  {
    var r := Reset(c);
    NoteHiddenMeansUnfiltered(s, r.statusFilter, r.languageFilter, r.debouncedSearchQuery);
  }

  /** What a handler leaves behind, and whether it stopped on a `TypeError`. */
  datatype Handled = Handled(state: Controls, threw: bool)

  /**
    `resetFilters` as written. The home page passes no `setPrFilter`, so the third call throws:
    the status and language filters are already reset, and the search, the sort and the page
    stay as they were.
  */
  function ResetAsWritten(c: Controls): (r: Handled)
    ensures r.threw
    ensures r.state.statusFilter == AnyStatus && r.state.languageFilter == AnyLanguage
    ensures r.state.(statusFilter := c.statusFilter, languageFilter := c.languageFilter) == c
  {
    Handled(c.(statusFilter := AnyStatus, languageFilter := AnyLanguage), true)
  }

  /**
    The written reset does what the intended one does exactly when there was no search, no
    sort, no pull-request filter and the first page was shown; a typed search, in particular,
    survives it and keeps the "filtered from" note.
  */
  lemma ResetAsWrittenFallsShort(c: Controls)
    ensures ResetAsWritten(c).state == Reset(c) <==>
      c.searchQuery == "" && c.debouncedSearchQuery == "" && c.sortMode == Default && c.sortDirection == Desc
      && c.prFilter == AllPrs && c.activePage == 1
    ensures var r := ResetAsWritten(c).state;
      FilterNoteShown(r.statusFilter, r.languageFilter, r.debouncedSearchQuery) <==> c.debouncedSearchQuery != ""
  {
    if ResetAsWritten(c).state == Reset(c) {
      assert c.debouncedSearchQuery == ResetAsWritten(c).state.debouncedSearchQuery;
    }
  }

  /**
    The pull-request select's `onChange` as written: `setPrFilter` is undefined on the home page,
    so the handler throws before it returns to the first page, and nothing changes.
  */
  function SelectPrAsWritten(c: Controls, value: Option<string>): (r: Handled)
    requires value.None? || value.value in PrFilterValues
    ensures r.threw && r.state == c
  {
    Handled(c, true)
  }

  /**
    The written select agrees with the intended one (`HomeSession.SelectPrFilter`) only when
    the choice is the filter already held and the first page is shown.
  */
  lemma SelectPrAsWrittenIgnored(c: Controls, value: Option<string>)
    requires value.None? || value.value in PrFilterValues
    ensures SelectPrAsWritten(c, value).state == c.(prFilter := ParsePrFilter(value), activePage := 1) <==>
      c.prFilter == ParsePrFilter(value) && c.activePage == 1
  {
  }

  /** Picking "Pull Request" on the second page: the written handler leaves both where they were. */
  lemma SelectPrAsWrittenExample()
    ensures var c := InitialControls.(activePage := 2);
      SelectPrAsWritten(c, Some("withPr")).state.prFilter == AllPrs
      && SelectPrAsWritten(c, Some("withPr")).state.activePage == 2
      && ParsePrFilter(Some("withPr")) == WithPr
  {
  }

  class HomeSession {
    var category: string
    var activePage: int
    var itemsPerPage: string
    var statusFilter: StatusFilter
    var languageFilter: LanguageFilter
    var prFilter: PrStatus
    var searchQuery: string
    var debouncedSearchQuery: string
    var sortMode: SortMode
    var sortDirection: SortDirection

    function Snapshot(): Controls
      reads this
    {
      Controls(category, activePage, itemsPerPage, statusFilter, languageFilter, prFilter,
               searchQuery, debouncedSearchQuery, sortMode, sortDirection)
    }

    /** Pages count from 1 and the page size is one of the offered sizes. */
    ghost predicate Valid()
      reads this
    {
      activePage >= 1 && itemsPerPage in PageSizeOptions
    }

    constructor()
      ensures Valid() && Snapshot() == InitialControls
    {
      category, activePage, itemsPerPage := "docsConcept", 1, "30";
      statusFilter, languageFilter, prFilter := AnyStatus, AnyLanguage, AllPrs;
      searchQuery, debouncedSearchQuery := "", "";
      sortMode, sortDirection := Default, Desc;
    }

    /** `onArticleCategoryChange`. */
    method ChangeCategory(c: string)
      requires Valid()
      modifies this
      ensures Valid() && Snapshot() == old(Snapshot()).(category := c, activePage := 1)
    {
      category, activePage := c, 1;
    }

    method SelectLanguage(value: Option<string>)
      requires Valid()
      modifies this
      ensures Valid() && Snapshot() == old(Snapshot()).(languageFilter := ParseLanguageFilter(value), activePage := 1)
    {
      languageFilter, activePage := ParseLanguageFilter(value), 1;
    }

    method SelectStatus(value: Option<string>)
      requires Valid()
      modifies this
      ensures Valid() && Snapshot() == old(Snapshot()).(statusFilter := ParseStatusFilter(value), activePage := 1)
    {
      statusFilter, activePage := ParseStatusFilter(value), 1;
    }

    /** The pull-request select's `onChange` as intended: its choice is kept and the page returns to 1. */
    method SelectPrFilter(value: Option<string>)
      requires Valid() && (value.None? || value.value in PrFilterValues)
      modifies this
      ensures Valid() && Snapshot() == old(Snapshot()).(prFilter := ParsePrFilter(value), activePage := 1)
    {
      prFilter, activePage := ParsePrFilter(value), 1;
    }

    /** The search box's `onChange`; the debounced callback is `CommitSearch`. */
    method TypeSearch(value: string)
      requires Valid()
      modifies this
      ensures Valid() && Snapshot() == old(Snapshot()).(searchQuery := value)
    {
      searchQuery := value;
    }

    /** `debouncedSearch`, once its delay has passed. */
    method CommitSearch(query: string)
      requires Valid()
      modifies this
      ensures Valid() && Snapshot() == old(Snapshot()).(debouncedSearchQuery := query, activePage := 1)
    {
      debouncedSearchQuery, activePage := query, 1;
    }

    /** `resetFilters` as intended: everything but the category and the page size returns to its initial value. */
    method ResetFilters()
      requires Valid()
      modifies this
      ensures Valid()
      ensures Snapshot() == Reset(old(Snapshot()))
    {
      statusFilter, languageFilter, prFilter := AnyStatus, AnyLanguage, AllPrs;
      searchQuery, debouncedSearchQuery := "", "";
      sortMode, sortDirection := Default, Desc;
      activePage := 1;
    }

    /** `resetFilters` as written: it stops after the status and language filters. */
    method ResetFiltersAsWritten()
      requires Valid()
      modifies this
      ensures Valid() && Snapshot() == ResetAsWritten(old(Snapshot())).state
    {
      statusFilter, languageFilter := AnyStatus, AnyLanguage;
    }

    /** The page-size select (it cannot be cleared). */
    method SelectPageSize(value: string)
      requires Valid() && value in PageSizeOptions
      modifies this
      ensures Valid() && Snapshot() == old(Snapshot()).(itemsPerPage := value, activePage := 1)
    {
      itemsPerPage, activePage := value, 1;
    }

    /** The pagination control's `onChange`. */
    method SetPage(page: int)
      requires Valid() && page >= 1
      modifies this
      ensures Valid() && Snapshot() == old(Snapshot()).(activePage := page)
    {
      activePage := page;
    }

    /** A click in the sort menu; the page is left where it is. */
    method ClickSort(mode: SortMode)
      requires Valid()
      modifies this
      ensures Valid()
      ensures var r := SortMenu.Click(SortMenu.SortState(old(sortMode), old(sortDirection)), mode);
        Snapshot() == old(Snapshot()).(sortMode := r.mode, sortDirection := r.direction)
    {
      var r := SortMenu.Click(SortMenu.SortState(sortMode, sortDirection), mode);
      sortMode, sortDirection := r.mode, r.direction;
    }

    /** `filteredArticles` for the category's list. */
    function Filtered(articles: seq<Article>): seq<Article>
      reads this
      requires SortDefined(articles, sortMode)
    {
      FilteredArticles(articles, statusFilter, languageFilter, debouncedSearchQuery, sortMode, sortDirection)
    }

    /** `currentArticles`. */
    function Current(articles: seq<Article>): (r: seq<Article>)
      reads this
      requires Valid() && SortDefined(articles, sortMode)
      ensures |r| <= PageSize(itemsPerPage)
    {
      CurrentPage(Filtered(articles), activePage, PageSize(itemsPerPage))
    }

    function PageCount(articles: seq<Article>): nat
      reads this
      requires Valid() && SortDefined(articles, sortMode)
    {
      TotalPages(|Filtered(articles)|, PageSize(itemsPerPage))
    }

    predicate NoteShown()
      reads this
    {
      FilterNoteShown(statusFilter, languageFilter, debouncedSearchQuery)
    }
  }
}

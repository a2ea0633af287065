# kube-i18n-status, modelled in Dafny

kube-i18n-status tracks how far each translation of the Kubernetes website lags behind
the English original. A Python pipeline reads translation status results and does five
things:
- it files each result under a category;
- it builds the site URL of every page in every language;
- it sums page views;
- it groups the open localization pull requests by file;
- it guesses the file an open issue is about.

It exports a per-category matrix of articles. Each article holds the translation record of
every language. A React front end then does the following:
- it sorts, filters and pages that matrix;
- it orders the language columns, with English first and then the reader's chosen
  languages;
- it detects the browser's language;
- it draws one status cell per translation.

This project models those rules and proves what they promise. One module stands for each
source file:

| module | file | what it holds |
|---|---|---|
| `ArticleList` | `article_list.dfy` | the sort, filter and slice stages of the home page |
| `SortMenu` | `sort_menu.dfy` | the sort menu |
| `ListSession` | `list_session.dfy` | the page's control state, as a class whose methods are the control handlers |
| `LanguageCodes` | `language_codes.dfy` | the language catalog and the column order |
| `LanguageSelector` | `language_selector.dfy` | browser-language detection and the two preferred-language toggles (a class) |
| `Translations` | `translations.dfy` | the record types and constant catalogs |
| `StatusCell` | `status_cell.dfy` | the status badge and both status cells |
| `MobileMatrix` | `mobile_matrix.dfy` | the mobile card view |
| `DateFormat` | `date_format.dfy` | `formatSecondsToMMSS` |
| `Exporter` | `exporter.dfy` | the export pipeline of scripts/python/exporter.py |
| `UrlBuilder` | `url_builder.dfy` | scripts/python/url_builder.py |
| `PageViews` | `page_view.dfy` | scripts/python/page_view.py |
| `PullRequests` | `pull_requests.dfy` | scripts/python/pull_requests.py |
| `JsonRepair` | `sanitize.dfy` | `sanitize` of scripts/python/main.py |
| `Issue` | `issue.dfy` | scripts/python/issue.py |
| `KeyCase` | `key_case.dfy` | tracker/python/utils.py |
| `ViewTypes` | `view_types.dfy` | the sort and filter enumerations of web/src/features/types.ts |

Five helper modules model the library behaviour the code relies on:
- `Wrappers`: `Option` and `Result`.
- `Strings`: ASCII case mapping, split, join, strip, prefix and suffix tests, and decimal text.
- `Seqs`: filter, map and distinctness.
- `StableSort`: the stable sort behind JavaScript's `Array.prototype.sort` and Python's `sorted`.
- `PosixPath`: the parts of `PurePosixPath` the code uses.

Where the code changes state step by step, the model does too:
- `ListSession.HomeSession` and `LanguageSelector.PreferredLanguage` are classes.
- Several operations are methods with loops, each proved equal to a specification function:
  - the filtering pipeline;
  - `getSortedLangCodes`;
  - `detectBrowserLanguage`;
  - `_get_prs` and `get_prs_by_file`;
  - `summarize_view`;
  - the two loops of `create_matrix_data`;
  - the hyphenation and candidate loops of `gen_path_candidates`;
  - `guess_language`.
- `guess_path` (`Issue.GuessPath`) is a method with no loop of its own. Lines 264-268 loop over
  the candidates and stop at the first known one, but the candidates come in Python's set
  order. So `Issue.PickKnown` picks some known candidate with `:|`, and the method promises
  only that a guess is known and a candidate, and that nothing is guessed only when no
  candidate is known.

Everything else is a function.

The I/O the code performs (files, GitHub, the clock, the browser's storage and language
list) is not modelled. Its results — the site's URLs, the page-view rows, the fetched pull
requests, the front matter, the stored preference, the browser tags — are parameters.

## Model

| member | source | states |
|---|---|---|
| ArticleList.OrderTotal | web/src/pages/Home.page.tsx:39-64 | each metric comparator (the `en` record's views, new users, session duration or latest English date, missing as 0, ascending or descending) is a total preorder, so the stable sort is determined |
| ArticleList.SortArticles | web/src/pages/Home.page.tsx:39-70 | the `sortMode` branch: the default mode keeps the list (`desc`) or reverses it (`asc`), a metric mode sorts stably by the `en` metric; its properties are stated by `SortArticlesMultiset`, `FilteredOrderedByMetric`, `FilteredStable` and `FilteredDefaultOrder` |
| ArticleList.SortArticlesMultiset | web/src/pages/Home.page.tsx:39-70 | the sort stage only reorders: its output is a permutation of the category's list |
| ArticleList.OrderEquivalence | web/src/pages/Home.page.tsx:39-64 | two articles compare as equal in both directions exactly when their metrics are equal |
| ArticleList.FilteredOrderedByMetric | web/src/pages/Home.page.tsx:39-64 | in a metric mode the listed articles are ordered by the `en` metric, ascending for `asc` and descending for `desc` |
| ArticleList.FilteredStable | web/src/pages/Home.page.tsx:39-64 | the metric sort is stable: articles with equal metrics keep their relative order from the category's list |
| ArticleList.FilteredDefaultOrder | web/src/pages/Home.page.tsx:65-70 | with no sort mode the list is the filtered list reversed for `asc` and unchanged for `desc` |
| ArticleList.StatusStageFilter | web/src/pages/Home.page.tsx:72-83 | the status stage is an order-keeping filter: with language `all` an article stays iff some record, `en` included, has the status; otherwise iff the filtered language's record exists and has it |
| ArticleList.LanguageStageFilter | web/src/pages/Home.page.tsx:85-90 | with status `all` and a specific language, an article stays iff it has a record for that language, whatever its status |
| ArticleList.SearchStageFilter | web/src/pages/Home.page.tsx:92-97 | the empty query keeps everything; any other query keeps the articles whose lowercased English path contains the lowercased query, in order |
| ArticleList.FilterStagesKeep | web/src/pages/Home.page.tsx:72-97 | the three stages together are one order-keeping filter by the combined condition `Keep` |
| ArticleList.FilterStagesIdempotent | web/src/pages/Home.page.tsx:72-97 | filtering the filtered list again changes nothing |
| ArticleList.SortDefinedFilter | web/src/pages/Home.page.tsx:39-64 | dropping articles keeps the metric sort defined (every remaining article still has an `en` record) |
| ArticleList.FilteredArticles | web/src/pages/Home.page.tsx:36-99 | `getFilteredArticles`: the sort stage, then the status, language and search stages; what it keeps and in which order is stated by `FilteredIsSortedSelection` and `FilteredMembership` |
| ArticleList.FilteredIsSortedSelection | web/src/pages/Home.page.tsx:36-99 | sorting before filtering, as the code does, gives the same list as filtering first and sorting the rest |
| ArticleList.FilteredMembership | web/src/pages/Home.page.tsx:36-99 | an article is listed iff it is in the category's list and every filter keeps it |
| ArticleList.GetFilteredArticles | web/src/pages/Home.page.tsx:36-99 | the stage-by-stage reassignment of `filtered` computes `FilteredArticles`, whose members are exactly the kept articles |
| ArticleList.Slice | web/src/pages/Home.page.tsx:116 | `slice(start, end)`: the elements from `start` up to `min(end, N)`, empty when `start >= end` or `start >= N` |
| ArticleList.CurrentPage | web/src/pages/Home.page.tsx:114-116 | the page holds at most `pageSize` articles, the article at position `k` is the filtered article at `startIndex + k`, it is full up to the list's end, and it is empty when `startIndex >= N` |
| SortMenu.SortOptionsCover | web/src/features/SortMenu.tsx:22-32 | the menu has exactly five options, one per sort mode (Default, views, newUsers, averageSessionDuration, updatedAt), none repeated |
| SortMenu.Click | web/src/features/SortMenu.tsx:35-39 | after a click the mode is the clicked one; the direction flips when it was already selected and is `desc` otherwise |
| SortMenu.ClickTwice | web/src/features/SortMenu.tsx:35-39 | two clicks on the current mode restore the state; two clicks on another mode leave it ascending |
| SortMenu.SortIcon | web/src/features/SortMenu.tsx:41-50 | only the current mode gets an icon, descending iff the direction is `desc` |
| SortMenu.ExactlyOneIcon | web/src/features/SortMenu.tsx:22-50 | exactly one menu option carries the sort icon, and it shows the current direction |
| ListSession.PageSize | web/src/features/ArticleListControl.tsx:200-204 | `parseInt` of an offered page size is 30, 50 or 100, and prints back to the option |
| ListSession.TotalPages | web/src/features/ArticleListControl.tsx:107 | `ceil(count / pageSize)`: the smallest number of pages holding every article, 0 when nothing matches |
| ListSession.PageIsSlice | web/src/pages/Home.page.tsx:114-116 | a page is the slice of the filtered list between its start index and its end index, clipped to the list |
| ListSession.PagesFlatten | web/src/pages/Home.page.tsx:114-116 | consecutive pages, laid end to end, are the rest of the list from the first page's start |
| ListSession.PagesCoverList | web/src/features/ArticleListControl.tsx:107 | pages 1 to `totalPages` together are the filtered list, every article once, in order |
| ListSession.ShowingCountsPage | web/src/features/ArticleListControl.tsx:187 | on a page within the list, "Showing a-b of N" spans exactly as many articles as the page shows (`b - a + 1`), and the first one shown is the `a`-th filtered article |
| ListSession.FilterNoteShown | web/src/features/ArticleListControl.tsx:188 | the "filtered from total" note shows iff the status or language filter is not `all` or the committed query is non-empty; `NoteHiddenMeansUnfiltered` and `FilteredOutShowsNote` tie it to the list |
| ListSession.NoteHiddenMeansUnfiltered | web/src/features/ArticleListControl.tsx:188 | when the "filtered from total" note is hidden (status and language `all`, empty committed query) no article was filtered out |
| ListSession.FilteredOutShowsNote | web/src/features/ArticleListControl.tsx:188 | if the filters dropped an article, the note is shown |
| ListSession.StatusOptionsRoundTrip | web/src/features/ArticleListControl.tsx:92-133 | each status option selects the status it is labelled with, and `all` selects no status filter |
| ListSession.LanguageOptions | web/src/features/ArticleListControl.tsx:99-105 | "All Languages", then the column order without `en`; its shape is stated by `LanguageOptionsShape` |
| ListSession.LanguageOptionsShape | web/src/features/ArticleListControl.tsx:99-105 | the options are "All Languages" followed by `getSortedLangCodes(selected)` without `en`, every other catalog language once, each selecting that language |
| ListSession.CatalogCodeLength | web/src/features/language/languageCodes.ts:1-18 | every catalog code has two or five characters |
| ListSession.Reset | web/src/features/ArticleListControl.tsx:81-90 | `resetFilters` as intended: every filter and query is cleared (so the "filtered from" note is hidden), the PR filter is `all`, the sort is back to no mode and `desc`, the page is 1, and the category and page size stay |
| ListSession.ResetUnfilters | web/src/features/ArticleListControl.tsx:81-90 | after the intended reset the filtered list is the category's whole list, in its order |
| ListSession.ResetAsWritten | web/src/features/ArticleListControl.tsx:81-84 | `resetFilters` as written throws at line 84: only the status and language filters are reset, everything else stays |
| ListSession.ResetAsWrittenFallsShort | web/src/features/ArticleListControl.tsx:81-90 | the written reset equals the intended one iff there was no query, no sort, no PR filter and page 1 was shown; the "filtered from" note stays iff a committed query was there |
| ListSession.SelectPrAsWritten | web/src/features/ArticleListControl.tsx:143-146 | the PR select as written throws at `setPrFilter` and changes nothing, not even the page |
| ListSession.SelectPrAsWrittenIgnored | web/src/features/ArticleListControl.tsx:143-146 | the written PR select agrees with the intended one iff the choice is the filter already held and page 1 is shown |
| ListSession.SelectPrAsWrittenExample | web/src/features/ArticleListControl.tsx:143-146 | choosing "Pull Request" on page 2 leaves the filter at `all` and the page at 2 |
| ListSession.HomeSession.constructor | web/src/pages/Home.page.tsx:13-29 | the initial state: category `docsConcept`, page 1, 30 per page, filters `all`, empty queries, no sort mode, `desc` |
| ListSession.HomeSession.ChangeCategory | web/src/pages/Home.page.tsx:118-121 | a category change sets the category and returns to page 1; nothing else changes |
| ListSession.HomeSession.SelectLanguage | web/src/features/ArticleListControl.tsx:119-122 | the language filter becomes the chosen value (`all` when cleared) and the page returns to 1 |
| ListSession.HomeSession.SelectStatus | web/src/features/ArticleListControl.tsx:130-134 | the status filter becomes the chosen value (`all` when cleared) and the page returns to 1 |
| ListSession.HomeSession.SelectPrFilter | web/src/features/ArticleListControl.tsx:143-146 | as intended, with the PR state the home page lacks: the PR filter becomes the chosen value (`all` when cleared) and the page returns to 1 |
| ListSession.HomeSession.TypeSearch | web/src/features/ArticleListControl.tsx:158-161 | typing sets the search box's text only; the committed query and the page stay |
| ListSession.HomeSession.CommitSearch | web/src/features/ArticleListControl.tsx:76-79 | the debounced commit sets the committed query and returns to page 1 |
| ListSession.HomeSession.ResetFilters | web/src/features/ArticleListControl.tsx:81-90 | as intended: the new state is `Reset` of the old one |
| ListSession.HomeSession.ResetFiltersAsWritten | web/src/features/ArticleListControl.tsx:81-84 | as written: only the status and language filters are reset before the call to the missing `setPrFilter` throws |
| ListSession.HomeSession.SelectPageSize | web/src/features/ArticleListControl.tsx:200-203 | the page size becomes the chosen option and the page returns to 1 |
| ListSession.HomeSession.SetPage | web/src/features/ArticleListControl.tsx:209-212 | the pagination control sets the active page only |
| ListSession.HomeSession.ClickSort | web/src/features/SortMenu.tsx:35-39 | a sort-menu click applies `SortMenu.Click` to mode and direction and leaves the page where it is |
| ListSession.HomeSession.Current | web/src/pages/Home.page.tsx:114-116 | the articles shown never exceed the page size; they are taken from `HomeSession.Filtered` (the session's `filteredArticles`, i.e. `FilteredArticles` of its filters), whose page count `HomeSession.PageCount` is `TotalPages` of its length |
| LanguageCodes.CatalogShape | web/src/features/language/languageCodes.ts:1-18 | the catalog has 16 entries with distinct codes, English first |
| LanguageCodes.CatalogCodeLengths | web/src/features/language/languageCodes.ts:1-18 | every catalog code is a two-letter language or a five-character language-region code |
| LanguageCodes.EnglishInCatalog | web/src/features/language/languageCodes.ts:2 | `en` is a catalog code |
| LanguageCodes.CatalogsSameCodes | web/src/features/language/languageCodes.ts:1-18 | the catalog and the older catalog of `translations.ts` hold the same codes, each once, in a different order |
| LanguageCodes.CatalogCodesInOlder | web/src/features/translations.ts:5-22 | every code of the current catalog is in the older one |
| LanguageCodes.OlderCodesInCatalog | web/src/features/translations.ts:5-22 | every code of the older catalog is in the current one |
| LanguageCodes.LookupTag | web/src/features/language/languageCodes.ts:25-129 | a tag found in the table gives the code of a group that lists it |
| LanguageCodes.GroupsFollowCatalog | web/src/features/language/languageCodes.ts:25-129 | the table's groups, one per catalog language, all map to catalog codes |
| LanguageCodes.LookupTagTargets | web/src/features/language/languageCodes.ts:25-129 | a lookup in a table whose groups target some codes yields one of those codes |
| LanguageCodes.BrowserLanguage | web/src/features/language/languageCodes.ts:25-129 | every value of `browserLanguageMap` is a catalog code |
| LanguageCodes.Head | web/src/features/language/languageCodes.ts:134-141 | `head` starts with `en` |
| LanguageCodes.HeadStep | web/src/features/language/languageCodes.ts:137-141 | one turn of the `forEach`: the code is pushed iff it is not `en` and not yet in `head`, which keeps `head` equal to `en` plus the deduplicated non-English selection so far |
| LanguageCodes.CollectHead | web/src/features/language/languageCodes.ts:134-142 | the loop builds `head`: `en`, then the selected codes other than `en`, each once, in order of first selection |
| LanguageCodes.HeadInCatalog | web/src/features/language/languageCodes.ts:134-141 | for a selection drawn from the catalog, every code of `head` is a catalog code |
| LanguageCodes.HeadDistinct | web/src/features/language/languageCodes.ts:138 | `head` has no duplicates |
| LanguageCodes.HeadOfNothing | web/src/features/language/languageCodes.ts:134-136 | without a selection, or with an empty one, `head` is just `en` |
| LanguageCodes.Find | web/src/features/language/languageCodes.ts:144 | `find` gives an entry with that code, and fails only when no entry has it |
| LanguageCodes.EntriesOf | web/src/features/language/languageCodes.ts:144 | the head's entries are catalog entries carrying the head's codes, in order, so each has its catalog label |
| LanguageCodes.GetSortedLangCodes | web/src/features/language/languageCodes.ts:131-145 | the method computes the head's entries followed by the rest of the catalog in catalog order |
| LanguageCodes.EnglishFirst | web/src/features/language/languageCodes.ts:134-144 | the first entry is always English |
| LanguageCodes.SelectedFollowEnglish | web/src/features/language/languageCodes.ts:136-144 | after English come the selected codes, without `en` and duplicates, in order of first selection |
| LanguageCodes.ArrangeWithin | web/src/features/language/languageCodes.ts:143-144 | every output entry is a catalog entry |
| LanguageCodes.ArrangeKeeps | web/src/features/language/languageCodes.ts:143-144 | a catalog entry is output, among the head's entries when selected and in the rest otherwise |
| LanguageCodes.ArrangeKeepsAll | web/src/features/language/languageCodes.ts:143-144 | no catalog entry is dropped |
| LanguageCodes.ArrangeCovers | web/src/features/language/languageCodes.ts:143-144 | the output entries are exactly the catalog's entries |
| LanguageCodes.ArrangeDistinct | web/src/features/language/languageCodes.ts:143-144 | no code is output twice |
| LanguageCodes.DistinctCodesEntries | web/src/features/language/languageCodes.ts:1-18 | entries with distinct codes are distinct |
| LanguageCodes.ArrangePermutation | web/src/features/language/languageCodes.ts:143-144 | the head's entries plus the rest reorder the catalog: same entries, each once |
| LanguageCodes.SortedLangCodes | web/src/features/language/languageCodes.ts:131-145 | `getSortedLangCodes`: the entries of `head`, then the rest of the catalog in catalog order; `EnglishFirst`, `SelectedFollowEnglish` and `SortedLangCodesPermutation` state its properties |
| LanguageCodes.SortedLangCodesPermutation | web/src/features/language/languageCodes.ts:131-145 | for selections drawn from the catalog, the result is a permutation of the 16-entry catalog with distinct codes |
| LanguageCodes.EnglishEntries | web/src/features/language/languageCodes.ts:144 | the head `["en"]` gives the catalog's first entry |
| LanguageCodes.TailOutsideEnglish | web/src/features/language/languageCodes.ts:143 | no entry after English has the code `en` |
| LanguageCodes.OutsideEnglish | web/src/features/language/languageCodes.ts:143 | with head `["en"]` the rest is the catalog after English |
| LanguageCodes.ArrangeEnglishOnly | web/src/features/language/languageCodes.ts:143-144 | with head `["en"]` the result is the catalog itself |
| LanguageCodes.NoSelectionKeepsCatalog | web/src/features/language/languageCodes.ts:136-144 | with no stored selection the catalog comes back in catalog order |
| LanguageCodes.EmptySelectionKeepsCatalog | web/src/features/language/languageCodes.ts:136-144 | an empty selection also returns the catalog in catalog order |
| LanguageSelector.BaseLanguage | web/src/features/language/LanguageSelector.tsx:18 | `split('-')[0]` is a prefix of the tag without a `-` |
| LanguageSelector.SplitHead | web/src/features/language/LanguageSelector.tsx:18 | the first piece of the split is the prefix of the tag before the first `-` |
| LanguageSelector.FirstIsUnique | web/src/features/language/LanguageSelector.tsx:12-22 | a mapped tag with no mapped tag before it is the one the loop stops at |
| LanguageSelector.DetectWith | web/src/features/language/LanguageSelector.tsx:10-25 | the loop returns the mapping of the first tag that maps, exactly before by its primary subtag, and `en` when none maps; the result is a target code |
| LanguageSelector.DetectBrowserLanguage | web/src/features/language/LanguageSelector.tsx:10-25 | the detected language is a catalog code, the first mapped tag's (exact match first), else `en` |
| LanguageSelector.PreferredLanguage.FromBrowser | web/src/features/language/LanguageSelector.tsx:28-31 | the current menu's preference starts as the detected browser language |
| LanguageSelector.PreferredLanguage.WithDefault | web/src/features/LanguageSelector.tsx:7-10 | the older menu's preference starts as `en` |
| LanguageSelector.PreferredLanguage.Select | web/src/features/language/LanguageSelector.tsx:33-35 | selecting the current preference sets `en`; selecting any other language sets it (both menus: web/src/features/LanguageSelector.tsx:12-14) |
| LanguageSelector.PreferredLanguage.Clear | web/src/features/language/LanguageSelector.tsx:74 | "Clear Language" sets the preference to null (older menu: line 53 of its file) |
| Translations.DeclaredStatusesExact | web/src/features/translations.ts:1 | the declared statuses are exactly `up_to_date`, `outdated`, `not_translated` |
| Translations.ParseStatus | web/src/features/translations.ts:1 | a status read from its text prints back as that text, and falls outside the declared union exactly when the text is none of the three declared names |
| Translations.ParseStatusRoundTrip | web/src/features/translations.ts:1 | printing a status and reading it back gives the same status |
| Translations.SeveritiesExact | web/src/features/translations.ts:3 | the severities are exactly the five declared ones |
| Translations.FilterDistinctCodes | web/src/features/language/languageCodes.ts:143 | filtering keeps codes distinct |
| Translations.TranslationsCatalogShape | web/src/features/translations.ts:5-22 | the older catalog has 16 distinct codes, English first |
| Translations.ArticleCategoriesShape | web/src/features/translations.ts:48-63 | there are 14 article categories, all distinct |
| StatusCell.GetStatusConfig | ui/src/features/StatusBadge.tsx:4-15 | the lookup is total: the three declared statuses get ✅ "Up to date", ⚠️ "Outdated" and — "Not translated", and the "-" "Unknown" fallback is returned exactly for any other value (same switch: web/src/features/TranslationStatusCell.tsx:8-19) |
| StatusCell.StatusConfigsDistinct | ui/src/features/StatusBadge.tsx:5-14 | two different declared statuses differ in both the emoji and the label |
| StatusCell.Background | web/src/features/TranslationStatusCell.tsx:37-42 | the cell is tinted exactly for up-to-date (green) and outdated (orange), and empty otherwise (same rule: ui/src/features/TranslationStatusCell.tsx:19-24) |
| StatusCell.TranslationPathAt | web/src/features/TranslationStatusCell.tsx:35 | `replace('/en/', '/<lang>/')` replaces the first `/en/` only and keeps the text on both sides |
| StatusCell.TranslationPathAbsent | web/src/features/TranslationStatusCell.tsx:35 | a path without `/en/` is used unchanged |
| StatusCell.TranslationPathEnglish | web/src/features/TranslationStatusCell.tsx:35 | for English the translated path is the English path |
| StatusCell.Behind | web/src/features/TranslationStatusCell.tsx:71-77 | the commits/days line is shown iff the record is outdated with a non-zero day count, with the record's counts, and nothing else is rendered otherwise |
| StatusCell.BehindLineWording | web/src/features/TranslationStatusCell.tsx:71-77 | the commits/days line carries the record's counts; "commits" iff more than one commit (else "commit"), "day" iff exactly one day (else "days") (same: ui/src/features/TranslationStatusCell.tsx:53-58) |
| StatusCell.BehindAsWrittenStrayZero | web/src/features/TranslationStatusCell.tsx:71 | the guard as written renders a stray `0` exactly for an outdated record with zero days behind, and agrees with `Behind` otherwise |
| StatusCell.StrayZeroExample | ui/src/features/TranslationStatusCell.tsx:53 | an outdated record with 3 commits and 0 days behind renders the stray `0` |
| StatusCell.PrLinks | ui/src/features/TranslationStatusCell.tsx:85-93 | one link per pull request, in order, with its number and URL |
| StatusCell.CellOf | web/src/features/TranslationStatusCell.tsx:37-99 | the cell as intended, with the corrected "behind" slot; the lemmas below state its slots |
| StatusCell.CellOfAsWritten | web/src/features/TranslationStatusCell.tsx:37-99 | the cell as written, with the `daysBehind &&` guard of line 71 |
| StatusCell.RenderCell | web/src/features/TranslationStatusCell.tsx:25-35 | rendering a column's cell throws (`TypeError` from the destructuring of lines 33-34) exactly when the article has no record for that language; otherwise it is the written cell, with the record's badge (same: ui/src/features/TranslationStatusCell.tsx:15-17) |
| StatusCell.CellOfAsWrittenDiffers | web/src/features/TranslationStatusCell.tsx:71 | the written cell differs from the intended one iff the record is outdated with zero days behind, and then only in the "behind" slot |
| StatusCell.LinkUnlessNotTranslated | web/src/features/TranslationStatusCell.tsx:54-66 | the GitHub link is present iff the status is not `not_translated`, and it points at the translated path (same: ui/src/features/TranslationStatusCell.tsx:36-48) |
| StatusCell.DetailsOnlyWhenOutdated | web/src/features/TranslationStatusCell.tsx:68-77 | "N lines changed" (with N > 0) and the commits/days line only appear in an outdated, orange cell (same: ui/src/features/TranslationStatusCell.tsx:50-59) |
| StatusCell.UpdatedOnlyWhenTinted | web/src/features/TranslationStatusCell.tsx:78 | "Updated at" only appears in an outdated or up-to-date cell with a non-empty target date, and shows that date (same: ui/src/features/TranslationStatusCell.tsx:60) |
| StatusCell.UpdatedDocsLink | web/src/features/TranslationStatusCell.tsx:83-99 | beside "Updated at", the link is shown iff the record's translated URL is non-null and non-empty, and it is that URL |
| StatusCell.NotTranslatedShowsBadgeOnly | web/src/features/TranslationStatusCell.tsx:37-99 | a not-translated cell has no tint, no link, no counts and no date: only the bare badge |
| StatusCell.VariantsAgree | ui/src/features/TranslationStatusCell.tsx:15-81 | the web and ui cells are equal on every slot except the PR line, which the web cell never has |
| StatusCell.PrLineListsEveryPr | ui/src/features/TranslationStatusCell.tsx:82-95 | the PR line is shown iff there are pull requests, and lists every PR number in order |
| MobileMatrix.Columns | web/src/features/MobileTranslationStatusMatrix.tsx:19 | `sortedLangCodes`: the catalog filtered by the selection; `ColumnsInCatalogOrder` states that it keeps catalog order and holds exactly the selected entries |
| MobileMatrix.ColumnsInCatalogOrder | web/src/features/MobileTranslationStatusMatrix.tsx:19 | the columns are exactly the catalog entries whose code is selected, in catalog order (a subsequence of the catalog) |
| MobileMatrix.GroupOf | web/src/features/MobileTranslationStatusMatrix.tsx:36-47 | each group keeps column order and holds exactly the non-English columns whose record has the group's status (no record counts as not translated) |
| MobileMatrix.GroupsDisjoint | web/src/features/MobileTranslationStatusMatrix.tsx:36-47 | no language is in two groups |
| MobileMatrix.MissingRecordNotTranslated | web/src/features/MobileTranslationStatusMatrix.tsx:42-47 | a non-English column without a record is in the not-translated group |
| MobileMatrix.PartitionCount | web/src/features/MobileTranslationStatusMatrix.tsx:36-47 | for one entry with a declared status, its counts in the three groups add up to its count among the non-English columns |
| MobileMatrix.GroupsPartition | web/src/features/MobileTranslationStatusMatrix.tsx:36-47 | when every record has a declared status the three groups together are the non-English columns, each exactly once |
| MobileMatrix.OutdatedDetailShape | web/src/features/MobileTranslationStatusMatrix.tsx:181-190 | the detail line is empty iff there are neither changed lines nor days behind; with days it ends in "N days behind"; without days it is at most "N lines changed" (so "N commits" needs both counts) |
| MobileMatrix.MobileMatrixView | web/src/features/MobileTranslationStatusMatrix.tsx:18-54 | an empty article list renders only "No articles found"; otherwise there is one card per article, in order, and a card shows the "select target languages" prompt iff there is exactly one column |
| MobileMatrix.CardOf | web/src/features/MobileTranslationStatusMatrix.tsx:59-233 | one card: the English path, the column count, and either the prompt to select languages (one column) or the three groups; `MobileMatrixView` and `GroupRowsFollowGroups` state its shape |
| MobileMatrix.GroupRowsFollowGroups | web/src/features/MobileTranslationStatusMatrix.tsx:59-233 | for any column list that is not a single column (the selected columns among them), the card holds the three groups in column order: each up-to-date and outdated row names its group's language at that position and links to that language's translated path, and the not-translated list is that group itself |
| DateFormat.JsRemainder | web/src/utils/date.ts:8 | JavaScript `%`, the truncating remainder: it differs from the dividend by a multiple of the divisor, and lies in `[0, b)` for a non-negative dividend and in `(-b, 0]` for a negative one |
| DateFormat.Floor | web/src/utils/date.ts:7 | `Math.floor(a / b)` is the largest `r` with `r * b <= a` |
| DateFormat.ParseMMSS | web/src/utils/date.ts:9 | reading "m:s" back only succeeds on exactly two colon-separated fields |
| DateFormat.TwoDigitsSmall | web/src/utils/date.ts:9 | a number below 100 pads to exactly two digits that read back as the number |
| DateFormat.TwoDigitsNat | web/src/utils/date.ts:9 | any non-negative number pads to at least two digits that read back as the number |
| DateFormat.FormatSecondsToMMSS | web/src/utils/date.ts:6-9 | `mm:ss` from `Math.floor(s / 60)` and JavaScript `s % 60`, each padded to two digits; `FormatRoundTrip` states what it means |
| DateFormat.FormatRoundTrip | web/src/utils/date.ts:6-9 | for `s >= 0` the output is `mm:ss` with at least two minute digits and exactly two second digits, reading back gives `s div 60` and `s mod 60`, and `60 * mm + ss == s` |
| DateFormat.ZeroSeconds | web/src/utils/date.ts:6-9 | 0 seconds formats as "00:00" |
| DateFormat.NegativeSeconds | web/src/utils/date.ts:6-9 | a negative input keeps JavaScript's signs: -5 formats as "-1:-5" |
| KeyCase.Capitalize | tracker/python/utils.py:20 | `str.capitalize` keeps the length and adds no underscore |
| KeyCase.CapitalizedWords | tracker/python/utils.py:19-22 | words free of underscores join into text free of underscores |
| KeyCase.SnakeToCamel | tracker/python/utils.py:17-22 | the first `_`-separated word as it is, every later word capitalised; `SnakeToCamelShape` states its shape |
| KeyCase.SnakeToCamelShape | tracker/python/utils.py:17-22 | the camelCase key starts with the key's first `_`-separated word, verbatim, and holds no underscore |
| KeyCase.SnakeToCamelPlain | tracker/python/utils.py:17-22 | a key without an underscore is unchanged |
| KeyCase.KeysOfIndex | tracker/python/utils.py:25-28 | a key is in the dict iff some entry has it |
| KeyCase.KeysOfSnoc | tracker/python/utils.py:25-28 | appending an entry adds exactly its key |
| KeyCase.DistinctKeysIndex | tracker/python/utils.py:25-28 | in a dict no two positions hold the same key |
| KeyCase.PutKeys | tracker/python/utils.py:25-28 | assigning `d[k] = v` adds exactly `k` to the keys |
| KeyCase.PutDistinct | tracker/python/utils.py:25-28 | assigning keeps the keys distinct |
| KeyCase.PutFind | tracker/python/utils.py:25-28 | after `d[k] = v`, `k` holds `v` and every other key keeps its value |
| KeyCase.PutAbsent | tracker/python/utils.py:25-28 | a new key goes at the end of the insertion order |
| KeyCase.CollectFacts | tracker/python/utils.py:25-28 | the comprehension builds a dict with distinct keys, exactly the keys produced, each holding the value of the last pair with that key (colliding converted keys keep the later value) |
| KeyCase.CollectDistinct | tracker/python/utils.py:25-28 | without colliding keys the dict holds every pair, in order |
| KeyCase.DistinctInit | tracker/python/utils.py:25-28 | dropping the last pair keeps the keys distinct |
| KeyCase.Convert | tracker/python/utils.py:24-32 | `convert_keys_to_camel_case` over dicts, lists and other values; `ConvertShape`, `ConvertIsCamelKeyed` and `ConvertIdempotent` state its properties |
| KeyCase.ConvertShape | tracker/python/utils.py:24-32 | a list keeps its length and order with each item converted; a value that is neither dict nor list is returned as is; a dict without colliding converted keys keeps its entries in order, with converted keys and converted values |
| KeyCase.ConvertIsCamelKeyed | tracker/python/utils.py:4-32 | every key at every depth of the result is free of underscores, and no dict repeats a key |
| KeyCase.FindAt | tracker/python/utils.py:25-28 | in a dict with distinct keys the key at a position finds the value at that position |
| KeyCase.LastValueFrom | tracker/python/utils.py:25-28 | the value kept for a key comes from a pair with that key |
| KeyCase.CamelKeyedFixed | tracker/python/utils.py:24-32 | a value already camel-keyed at every depth is returned unchanged |
| KeyCase.ConvertIdempotent | tracker/python/utils.py:4-32 | converting twice is converting once |
| KeyCase.SerializeDatetime | tracker/python/utils.py:47-51 | succeeds exactly for a datetime, with its ISO text; any other value raises `TypeError` |
| PageViews.AddRow | scripts/python/page_view.py:59-71 | after one more row each URL's counters are the sums over the rows read so far, and a URL is present iff one of those rows counted towards it |
| PageViews.CountsForMeaning | scripts/python/page_view.py:33-38 | `build_url` credits a row to exactly one URL, base URL + path, and only when the site has that URL |
| PageViews.SummarizeView | scripts/python/page_view.py:41-73 | per URL the views and new users are the sums over the rows whose URL it is; a URL is a key iff some row counts towards it |
| PageViews.SeenIsExisting | scripts/python/page_view.py:65-68 | every key of the summary is a known URL, and it is a key iff some row counts towards it |
| PageViews.UnseenIsZero | scripts/python/page_view.py:54 | a URL no row counts towards reads as zero views and zero new users |
| PageViews.SkippedRowChangesNothing | scripts/python/page_view.py:67-68 | a row whose URL is unknown changes no total |
| PageViews.Totals | scripts/python/page_view.py:59-71 | the sums of views and new users over the rows that count towards a URL; `SummarizeView` reads them off the summary |
| PageViews.TotalsConcat | scripts/python/page_view.py:59-71 | the totals over two batches of rows are the sums of the batches' totals |
| PullRequests.GetPrs | scripts/python/pull_requests.py:37-74 | the result is the sublist of eligibles in fetched order (both labels present, fewer than 1000 files and fewer than 1000 commits), as records |
| PullRequests.Kept | scripts/python/pull_requests.py:39-69 | the records of the fetched pull requests that pass the label, file-count and commit-count tests; `KeptIsEligibleSublist` and `KeptAreSmallAndLabelled` state it |
| PullRequests.KeptIsEligibleSublist | scripts/python/pull_requests.py:39-69 | the kept list is the eligible ones, record by record, and every eligible pull request is kept |
| PullRequests.KeptAreSmallAndLabelled | scripts/python/pull_requests.py:47-60 | every kept pull request comes from a fetched one with both labels and with fewer than 1000 files and commits |
| PullRequests.Touching | scripts/python/pull_requests.py:81-88 | a file's list: each pull request once per occurrence of the file, in order; `TouchingNonEmpty`, `TouchingTouches` and `GetPrsByFile` state it |
| PullRequests.TouchingNonEmpty | scripts/python/pull_requests.py:81-88 | a file has a non-empty list iff some pull request touches it |
| PullRequests.TouchingTouches | scripts/python/pull_requests.py:84-86 | every pull request in a file's list is a kept one that touches the file |
| PullRequests.AddOne | scripts/python/pull_requests.py:85-86 | one more file occurrence appends the pull request to that file's list and leaves every other list alone |
| PullRequests.AddPr | scripts/python/pull_requests.py:85-86 | each file's list grows by the pull request once per occurrence of the file in it, and a file is a key iff its list is non-empty |
| PullRequests.CountStep | scripts/python/pull_requests.py:85 | one more file adds one to that file's count only |
| PullRequests.CopiesSnoc | scripts/python/pull_requests.py:86 | one more copy is appended at the end |
| PullRequests.TouchingSnoc | scripts/python/pull_requests.py:84-86 | one more pull request appends itself to each of its files' lists, once per occurrence |
| PullRequests.GetPrsByFile | scripts/python/pull_requests.py:77-88 | every file's list holds the pull requests touching it, in order, once per occurrence; a file is a key iff some pull request touches it |
| JsonRepair.NoBackslashUnchanged | scripts/python/main.py:39 | a line without a backslash is returned unchanged |
| JsonRepair.SanitizeAsWritten | scripts/python/main.py:39 | the repair as written: every backslash not followed by one of `\ b f n r t " /` is doubled; `SanitizeAsWrittenLength` and the as-written lemmas below state what it does |
| JsonRepair.SanitizeAsWrittenLength | scripts/python/main.py:39 | the output is longer by exactly the number of doubled backslashes |
| JsonRepair.TrailingAndUnicodeDoubled | scripts/python/main.py:39 | a trailing backslash and the backslash of `\u` are doubled |
| JsonRepair.EscapeLength | scripts/python/main.py:39 | an escape is 2 or 6 characters long and starts with a backslash |
| JsonRepair.EscapeLengthPrefix | scripts/python/main.py:39 | an escape stays that escape whatever follows it |
| JsonRepair.Sanitize | scripts/python/main.py:39 | the corrected repair: allowed escapes are copied whole, every other backslash is doubled; `SanitizeWellEscaped`, `SanitizeKeepsWellEscaped` and `SanitizeIdempotent` state what it does |
| JsonRepair.SanitizeWellEscaped | scripts/python/main.py:39 | the repaired line only holds escapes that section 7 of RFC 8259 allows |
| JsonRepair.SanitizeKeepsWellEscaped | scripts/python/main.py:39 | a well-escaped line is left unchanged |
| JsonRepair.SanitizeIdempotent | scripts/python/main.py:39 | repairing twice is repairing once |
| JsonRepair.AsWrittenBreaksEscapedBackslash | scripts/python/main.py:39 | the scan as written turns the well-escaped `\\d` into `\\\d`, which is not well escaped, while the repair keeps it |
| JsonRepair.AsWrittenDoublesUnicodeEscape | scripts/python/main.py:39 | the scan as written turns `\u00e9` into `\\u00e9` |
| JsonRepair.UnicodeEscapeKept | scripts/python/main.py:39 | `\u00e9` is well escaped and the repair keeps it |
| UrlBuilder.RelativeToContentEn | scripts/python/url_builder.py:39-43 | `relative_to("content/en")` succeeds iff the path is relative and its first two parts are `content` and `en`, and then gives the remaining parts |
| UrlBuilder.UrlParts | scripts/python/url_builder.py:35-50 | parts are only produced for a path whose string form starts with `content/en/` and whose name has the suffix `.md`, and there is at least one part once a last `_index.md` is dropped |
| UrlBuilder.DocsTail | scripts/python/url_builder.py:55-57 | the docs tail is the one the code builds for every page except the section page, whose tail is the code's with the doubled slash removed |
| UrlBuilder.DateParts | scripts/python/url_builder.py:97 | a leading date is read as a 4-digit, a 2-digit and a 2-digit group, which with dashes make up the start of the text |
| UrlBuilder.Line | scripts/python/url_builder.py:116 | the title `.+` matches is the text before the first newline, and the whole text when there is none |
| UrlBuilder.FirstExisting | scripts/python/url_builder.py:104-135 | only a URL the site has is ever returned |
| UrlBuilder.FirstExistingIsFirst | scripts/python/url_builder.py:94-135 | nothing is returned iff no candidate is a URL the site has; otherwise the returned URL is the candidate of lowest index that the site has |
| UrlBuilder.BlogUrl | scripts/python/url_builder.py:69-135 | the blog URL is the first candidate the site has, in Hugo's priority order: slug and date, then the front-matter `url`, then the file name, then the plain path; it is always one the site has |
| UrlBuilder.FirstOfFour | scripts/python/url_builder.py:94-135 | the four priorities are tried in order, each returning only when the site has its URL |
| UrlBuilder.BuildUrl | scripts/python/url_builder.py:35-66 | `build_url` as intended, with the corrected docs tail; the lemmas below state its properties |
| UrlBuilder.BuildUrlAsWritten | scripts/python/url_builder.py:35-66 | `build_url` as written: a docs page ends in `docs/{doc_path}/` even when `doc_path` is empty |
| UrlBuilder.BuildUrlAsWrittenDiffers | scripts/python/url_builder.py:56-57 | the written URL differs from the intended one iff the page is a docs page with an empty page path, and then it is the intended URL with one more `/` |
| UrlBuilder.BuildUrlChecks | scripts/python/url_builder.py:35-66 | a URL is only built for a file with suffix `.md` under `content/en/`; a path that fails the checks gives None; a blog URL is always one the site has |
| UrlBuilder.MarkdownPath | scripts/python/url_builder.py:35-41 | a relative path made of parts under `content/en` is its own string form, starts with `content/en/`, gives the parts below as `relative_to`, and has the last part as its name |
| UrlBuilder.ContentEnPrefix | scripts/python/url_builder.py:36 | parts starting with `content` and `en` (and more) join to a relative string starting with `content/en/` |
| UrlBuilder.MarkdownName | scripts/python/url_builder.py:36 | a name `<stem>.md` has the suffix `.md` and the stem `<stem>` |
| UrlBuilder.RelativeToNeverFails | scripts/python/url_builder.py:36-43 | once the string form starts with `content/en/`, `relative_to` never raises: the `except ValueError` branch is dead |
| UrlBuilder.PrefixGivesParts | scripts/python/url_builder.py:36-41 | a string form starting with `content/en/` comes from a relative path whose first two parts are `content` and `en`, with more parts after them |
| UrlBuilder.PrefixGivesJoin | scripts/python/url_builder.py:35-36 | a string form starting with `content/en/` is that of a relative path with parts, joined by `/` |
| UrlBuilder.RemoveMd | scripts/python/url_builder.py:56 | `removesuffix(".md")` on the joined parts removes `.md` from the last part only |
| UrlBuilder.UrlPartsOfParts | scripts/python/url_builder.py:45-50 | for a relative `.md` path under `content/en` with two parts or more below it, the URL parts are the parts below, with a final `_index.md` dropped |
| UrlBuilder.DocsPageUrl | scripts/python/url_builder.py:55-57 | the docs page `content/en/docs/<dirs>/<stem>.md` gets `<base>/<prefix>docs/<dirs>/<stem>/`, whatever the site has and whatever the front matter |
| UrlBuilder.DocsPageParts | scripts/python/url_builder.py:45-56 | a docs page gives the parts below `content/en`, and the non-empty path `<dirs>/<stem>` below `docs` |
| UrlBuilder.DocsSectionUrl | scripts/python/url_builder.py:49-57 | `content/en/docs/_index.md` gives the parts `["docs"]`; the code builds the tail `docs//`, and the corrected URL is `<base>/<prefix>docs/` |
| UrlBuilder.DocsSectionParts | scripts/python/url_builder.py:49-50 | the docs section page leaves the single part `docs` once `_index.md` is dropped |
| UrlBuilder.FilenamePartsOf | scripts/python/url_builder.py:116-118 | a file name `<yyyy>-<mm>-<dd>-<title>` is read back as its four groups |
| UrlBuilder.DatedPostUrl | scripts/python/url_builder.py:113-126 | a post `content/en/blog/_posts/<yyyy>-<mm>-<dd>-<title>.md` without front matter gets the URL dated by its file name, with the day left out when it is `00`, when the site has that URL |
| UrlBuilder.PostParts | scripts/python/url_builder.py:45-50 | a post under `_posts` keeps its parts below `content/en`, with `_posts` second and the file third |
| UrlBuilder.NonBlogIgnoresSite | scripts/python/url_builder.py:55-66 | docs pages and pages of other categories always get a URL, and it depends neither on what the site has nor on the front matter |
| UrlBuilder.LocalizedUrl | scripts/python/url_builder.py:52-66 | outside the blog, the localized URL is the English one with `<language>/` inserted after the base URL and its slash |
| UrlBuilder.SiteUrlParts | scripts/python/url_builder.py:57 | the English URL of a tail is the base URL, a slash and the tail |
| Exporter.ShouldProcess | scripts/python/exporter.py:33 | a result is processed iff the lowercased path ends in `.md` or `.html` and its category is known; `ShouldProcessIgnoresCase` states its case blindness |
| Exporter.ShouldProcessIgnoresCase | scripts/python/exporter.py:33 | the test is blind to the case of the English path |
| Exporter.ShouldProcessMeaning | scripts/python/exporter.py:14-35 | a result is processed iff its category is not `unknown` and the last part of its lowercased path ends in `.md` or `.html` after at least one more character |
| Exporter.FirstMatch | scripts/python/exporter.py:55 | the index `re.search` reports: the leftmost one where the pattern matches, and none iff it matches nowhere |
| Exporter.ExtractBlogDate | scripts/python/exporter.py:55-56 | the extracted date always has ten characters |
| Exporter.BlogDateOfPost | scripts/python/exporter.py:55-56 | a path `content/en/blog/_posts/<yyyy>-<mm>-<dd>...` gives the date its file name starts with |
| Exporter.PostDateContains | scripts/python/exporter.py:55 | a match only exists where the path holds `content/en/blog/_posts/` |
| Exporter.BlogDateDefault | scripts/python/exporter.py:55-56 | a path without `content/en/blog/_posts/` gets `0000-00-00` (so every post of another language does) |
| Exporter.BlogDateUndated | scripts/python/exporter.py:55-56 | a path where no `content/en/blog/_posts/` is followed by a `YYYY-MM-DD` date gets `0000-00-00` |
| Exporter.UndatedPostExample | scripts/python/exporter.py:55-56 | an English post whose file name starts with no date, `content/en/blog/_posts/hello.md`, gets `0000-00-00` |
| Exporter.RunLength | scripts/python/exporter.py:79 | the greedy `[^/]+` stops at the next slash or at the end |
| Exporter.RunLengthOf | scripts/python/exporter.py:79 | a slash-free stretch ended by a slash or by the end is exactly what `[^/]+` takes |
| Exporter.DocsSegment | scripts/python/exporter.py:79-83 | the captured group is non-empty and slash-free |
| Exporter.ExtractDocsSubcategory | scripts/python/exporter.py:59-89 | a subcategory is a non-empty, slash-free segment that does not end in `.md` |
| Exporter.DocsSubcategoryOf | scripts/python/exporter.py:73-89 | under `content/<lang>/docs/` the first segment is the subcategory, and there is none when that segment ends in `.md` |
| Exporter.BuildCategoryName | scripts/python/exporter.py:92-111 | a category other than `docs` is kept; a docs page goes to a category that starts with `docs_` and has more after it |
| Exporter.DocsCategoryOf | scripts/python/exporter.py:105-110 | a docs page is filed under `docs_<first directory>`, or under `docs_misc` when its first segment is a Markdown file |
| Exporter.CreateDetailData | scripts/python/exporter.py:183-209 | a URL is only given for a path the URL builder accepts |
| Exporter.DetailRoundTrip | scripts/python/exporter.py:194-209 | a detail keeps every field of its result but the language and the category, which can be put back to give the result |
| Exporter.DetailUrls | scripts/python/exporter.py:190-192 | outside the blog both URLs exist and the translated one is the English one with the language inserted; in the blog a URL is only given when the site has it |
| Exporter.TranslationDataOf | scripts/python/exporter.py:132-151 | the corrected form (a default record with the declared fields): the record carries the translated URL, and the page views of that URL, or zeros when the URL is missing or has no views |
| Exporter.GroupStep | scripts/python/exporter.py:129-153 | after one more result the paths gain its path at the end if it is new, and its path's language now holds its record |
| Exporter.PathOrderStep | scripts/python/exporter.py:153 | a new path goes last in insertion order; a known path keeps the order |
| Exporter.TranslationsStep | scripts/python/exporter.py:153 | one more result sets its language on its own path only |
| Exporter.ArrangeStep | scripts/python/exporter.py:155-170 | one more path appends its article to its own category only |
| Exporter.NamesStep | scripts/python/exporter.py:170 | one more path adds exactly its category to the categories |
| Exporter.CategoryStep | scripts/python/exporter.py:170 | one more path changes the article list of its own category only |
| Exporter.OccursHasCategory | scripts/python/exporter.py:156-160 | `next(...)` never fails: every path some result has has a first result |
| Exporter.GroupByPath | scripts/python/exporter.py:127-153 | the corrected form, over `TranslationDataOf`: `articles_by_english_path` has exactly the paths of the results, in order of first appearance, and each maps every language to the record of its last result |
| Exporter.ArrangedStep | scripts/python/exporter.py:155-170 | one more path appends its article to its category |
| Exporter.ArrangedMeaning | scripts/python/exporter.py:155-170 | each category lists the articles of its paths in path order, and no other category appears |
| Exporter.ArrangeArticles | scripts/python/exporter.py:155-170 | each category's list holds its paths' articles in insertion order, and the categories are those of the paths |
| Exporter.CreateMatrixData | scripts/python/exporter.py:114-180 | the corrected form: the matrix has exactly the categories of the results' paths, each with its articles, and the blog is sorted newest first |
| Exporter.FirstCategoryIsFirst | scripts/python/exporter.py:156-160 | the category `next(...)` takes exists iff some result has the path, and is that of the first such result |
| Exporter.TranslationsOfKeys | scripts/python/exporter.py:153 | the languages of a page are exactly those some result of the page has |
| Exporter.TranslationsOfLast | scripts/python/exporter.py:153 | a language of a page holds the record of the last result of that page in that language |
| Exporter.ArticlesInPaths | scripts/python/exporter.py:155-170 | a category lists one article per path whose first result gives it that category: all of them, in order of first appearance, none twice |
| Exporter.ArticleOfCategory | scripts/python/exporter.py:155-170 | an article in a category is the article of its path, and that path's first result has that category |
| Exporter.SortBlog | scripts/python/exporter.py:172-178 | the blog articles sorted stably, newest first, by the date key of the English path; `SortBlogMeaning` states it |
| Exporter.SortBlogMeaning | scripts/python/exporter.py:172-178 | the blog is sorted newest first by the date of its English path, holds the same articles, and keeps the order of articles of the same date |
| Exporter.ProcessedResults | scripts/python/exporter.py:298-304 | the items sorted by lowercased target path, then those that pass `should_process`; `ProcessedResultsMeaning` states it |
| Exporter.ProcessedResultsMeaning | scripts/python/exporter.py:298-304 | the exported results are exactly the ones to process, ordered stably by lowercased target path, the same as sorting what the filter keeps |
| Exporter.ProcessTranslationResults | scripts/python/exporter.py:280-307 | the corrected form: the matrix's categories (one file each for `save_matrix_files`) are exactly those of the processed results' paths, and each holds the articles of the processed results in their sorted order |
| Exporter.ExportedArticlesProcessed | scripts/python/exporter.py:298-307 | every exported article is the page of some result that passes `should_process` |
| Exporter.ProcessedFromItems | scripts/python/exporter.py:300-304 | each processed result is one of the input items, and one that passes `should_process` |
| Exporter.PageViewCall | scripts/python/page_view.py:7-12 | calling the dataclass succeeds iff the keywords are exactly `views` and `new_users`; an undeclared keyword raises `TypeError` |
| Exporter.TranslationDataAsWritten | scripts/python/exporter.py:134-137 | as written: building the default `PageView` with `average_session_duration` raises `TypeError` for every result, before the lookup |
| Exporter.CreateMatrixDataAsWritten | scripts/python/exporter.py:129-137 | as written: `create_matrix_data` raises `TypeError` iff there is a result; with none it returns the empty matrix |
| Exporter.ProcessedNonEmpty | scripts/python/exporter.py:300-304 | some result is processed iff some item passes `should_process` |
| Exporter.ProcessTranslationResultsAsWritten | scripts/python/exporter.py:298-307 | as written: the export raises `TypeError` iff some item passes `should_process`, and otherwise writes the empty matrix |
| Issue.LabelsOfCodes | scripts/python/issue.py:25-45 | LANGUAGE_LABELS is `language/` followed by each of the eighteen label codes, in order, with no slash in a code |
| Issue.LabelCodeOf | scripts/python/issue.py:109 | `label.split("/")[-1]` gives back the code of a label |
| Issue.RemapGivesDirectories | scripts/python/issue.py:25-67 | remapped (`pt` to `pt-br`, `zh` to `zh-cn`), the label codes and the title codes are the site's content directories, position by position |
| Issue.FirstLabel | scripts/python/issue.py:107-114 | the loop stops at the first entry of LANGUAGE_LABELS the issue carries, and finds none iff the issue carries none |
| Issue.IndexOf | scripts/python/issue.py:117 | the position of the first `]`, and none iff there is no `]` |
| Issue.TagOfMeaning | scripts/python/issue.py:117-119 | `^\[([^\]]+)\]` matches with group `g` iff `g` is non-empty, holds no `]`, and the title starts with `[g]` |
| Issue.GuessLanguage | scripts/python/issue.py:104-127 | the labels loop with its `break`, then the title when no label matched, with the corrected title branch |
| Issue.GuessedLanguage | scripts/python/issue.py:104-127 | `guess_language` with the corrected title branch: the first label of LANGUAGE_LABELS the issue carries, remapped, else the title's tag remapped; `GuessedLanguageMeaning` and `GuessedLanguageIsDirectory` state it |
| Issue.GuessedLanguageAsWritten | scripts/python/issue.py:104-127 | `guess_language` as written: a title tag is returned without the remap, because line 125 overwrites it; `TitleZhAsWritten` shows the difference |
| Issue.GuessedLanguageMeaning | scripts/python/issue.py:107-116 | the first entry of LANGUAGE_LABELS the issue carries gives its code, remapped, whatever order the issue lists its labels in; the title is read only when no such label is there |
| Issue.GuessedLanguageIsDirectory | scripts/python/issue.py:25-67 | every corrected guess is a content directory of the site, and Arabic is never guessed, as written or corrected |
| Issue.TitleZhAsWritten | scripts/python/issue.py:120-125 | a title tag `zh` without a language label gives `zh` as written, which is not a content directory, and `zh-cn` once corrected |
| Issue.ZhCode | scripts/python/issue.py:52 | `zh` is a title code but not a content directory |
| Issue.LabelZh | scripts/python/issue.py:112-113 | the label `language/zh` gives `zh-cn` |
| Issue.TitleZhExample | scripts/python/issue.py:117-119 | the title `[zh]` has the code `zh` |
| Issue.ExtractPathLike | scripts/python/issue.py:130-147 | nothing is found iff no pattern matches; the result is one of the matches without its leading `/`, and no match is more than one character longer than it |
| Issue.SiteRelativeMeaning | scripts/python/issue.py:160-161 | as intended, a path starting with `k8s.io/` loses exactly that prefix and any other path is kept |
| Issue.LStripDrops | scripts/python/issue.py:161 | `lstrip` drops every leading character of its set |
| Issue.SiteRelativeAsWrittenAgrees | scripts/python/issue.py:160-161 | the code as written removes exactly the prefix iff what follows `k8s.io/` does not start with one of `k 8 s . i o /` |
| Issue.SiteRelativeAsWrittenDrops | scripts/python/issue.py:161 | as written, a run of those characters after `k8s.io/` is lost too, where the intended removal keeps it |
| Issue.SiteRelativeAsWrittenIndonesian | scripts/python/issue.py:161 | as written, `k8s.io/id/docs/home` becomes `d/docs/home`; as intended, `id/docs/home` |
| Issue.HyphenPartMeaning | scripts/python/issue.py:167-170 | a hyphenated part keeps its length; in a part not starting with `_` every `_` becomes `-` and every other character stays; a part starting with `_` is kept |
| Issue.HyphenateParts | scripts/python/issue.py:163-170 | the loop builds the hyphenated parts of the non-empty parts, in order |
| Issue.HyphenPartIdempotent | scripts/python/issue.py:167-170 | hyphenating a part twice is hyphenating it once |
| Issue.HyphenatedIdempotent | scripts/python/issue.py:163-171 | the hyphenated path has no empty segment, and hyphenating it again changes nothing |
| Issue.ExpandMeaning | scripts/python/issue.py:204-211 | a base is always a candidate; a base ending in `.md` or `.html` adds only itself; every other candidate it adds extends it to a name ending in `.md` or `.html` |
| Issue.VariantIsPage | scripts/python/issue.py:205-211 | each of the six endings appended to a base gives a name that starts with the base and ends in `.md` or `.html` |
| Issue.ExpandAllMember | scripts/python/issue.py:199-246 | a name is a candidate of a list of bases iff it is a candidate of one of them |
| Issue.Paired | scripts/python/issue.py:202-221 | the prefix loop gives two bases per prefix |
| Issue.PairedAt | scripts/python/issue.py:202-221 | the bases of the `k`-th prefix sit at `2k` (the path) and `2k + 1` (the hyphenated path) |
| Issue.AddBases | scripts/python/issue.py:199-246 | after the loop the candidate set is what all bases so far expand to |
| Issue.GenPathCandidates | scripts/python/issue.py:150-248 | the corrected form (the site name removed as a prefix, not by line 161's `lstrip`): the candidate set is what every base of the three loops expands to, over the path without the site name and its hyphenated form |
| Issue.CandidatesFrom | scripts/python/issue.py:163-248 | the loops over a site-relative path build exactly what every base (each prefix twice, then the shortened paths) expands to |
| Issue.GenPathCandidatesAsWritten | scripts/python/issue.py:150-248 | `gen_path_candidates` as written: the candidate set is built over what `lstrip("k8s.io/")` leaves |
| Issue.CandidatesAsWrittenAgrees | scripts/python/issue.py:160-161 | the written candidates are the corrected ones for a path without the site name, and for one where what follows `k8s.io/` does not start with `k 8 s . i o /` |
| Issue.CandidatesAsWrittenDrops | scripts/python/issue.py:161 | a run of those characters after `k8s.io/` is lost as written: the written candidates are those of what follows the run, the corrected ones those of the whole rest |
| Issue.SiteRelativeAsWrittenStable | scripts/python/issue.py:160-161 | what the written strip leaves never starts with `k8s.io/` again, so removing the prefix once more changes nothing |
| Issue.Candidates | scripts/python/issue.py:150-248 | the corrected candidate set, what the corrected bases expand to; `CandidatesMeaning`, `CandidatesOfPrefix`, `CandidatesOfShortened` and `PathIsCandidate` state what it holds |
| Issue.CandidatesMeaning | scripts/python/issue.py:199-248 | a name is a candidate iff it is a candidate of one of the bases |
| Issue.CandidatesOfPrefix | scripts/python/issue.py:202-221 | for every one of the 23 prefixes, the path and the hyphenated path joined onto it are candidates |
| Issue.CandidatesOfShortened | scripts/python/issue.py:223-246 | every shortened path, plain and hyphenated, is a candidate |
| Issue.PathIsCandidate | scripts/python/issue.py:174 | a clean relative path without the site name is a candidate of itself, through the empty prefix |
| Issue.PickKnown | scripts/python/issue.py:263-270 | one of the candidates the site has, or nothing only when it has none of them |
| Issue.GuessPath | scripts/python/issue.py:251-270 | the corrected form, over `GenPathCandidates`: no or an empty path-like text gives nothing; a guessed path is both known and a candidate; nothing is guessed only when no candidate is known |
| Issue.GuessPathAsWritten | scripts/python/issue.py:251-270 | `guess_path` as written, over `GenPathCandidatesAsWritten`: the same three promises about the written candidates |

## Left out

Left out on purpose:
- I/O is not modelled, and its results become parameters:
  - the file reads and writes (`_parse_front_matter`, `load_existing_paths`, `load_json_records`, the CSV in `summarize_view`, `save_matrix_files`, `save_detail_files`, `main()`);
  - the GitHub clients (`_get_issues`, the fetching in `_get_prs`);
  - `get_issues_by_file`, which only chains `guess_language` and `guess_path` over fetched issues.
- `save_detail_files` grouping details by language, category and path is not modelled. It only writes files. The per-result work it calls (`build_category_name`, `create_detail_data`) is modelled.
- `datetime.now()` for `last_updated` is not modelled; it is a clock.
- The debounce timer of the search box is not modelled, only its committed effect (`CommitSearch`).
- `localStorage`, `navigator.languages` and `useMediaQuery` become parameters or are absent.
- Date parsing and formatting (`new Date`, `toISOString`, `formatDateISO`) are not modelled: timestamps are integers and dates are opaque strings.
- Floating-point values (`averageSessionDuration`) are integers.
- Strings are ASCII for `lower`, `upper`, `capitalize`, `strip` and Python's `\d`. Unicode case mapping and Unicode digits are not modelled.
- `PurePosixPath` keeps a leading `//` as it is. The model normalises it like any other root.
- The JavaScript object-prototype keys (`constructor`, `toString` and the like) that a lookup in `browserLanguageMap` would also find are not modelled.
- The home page declares no pull-request filter state and passes neither `prFilter` nor `setPrFilter` to ArticleListControl.tsx (Home.page.tsx:130-152). The written handlers are modelled by `ListSession.ResetAsWritten` and `ListSession.SelectPrAsWritten` (see Findings). No filter stage reads the PR filter in either form, so the model never filters articles by pull request.
- The exporter's URLs (`Exporter.EnglishUrl`, `Exporter.TranslationUrl` and every record built from them) come from the corrected `UrlBuilder.BuildUrl`, and a status cell is the corrected `StatusCell.CellOf`. The written forms, `UrlBuilder.BuildUrlAsWritten` and `StatusCell.CellOfAsWritten`, differ only as `BuildUrlAsWrittenDiffers` and `CellOfAsWrittenDiffers` state (see Findings).
- The issue path guess is built on the corrected candidates (`Issue.GenPathCandidates`, `Issue.GuessPath`). The written forms, `Issue.GenPathCandidatesAsWritten` and `Issue.GuessPathAsWritten`, differ only as `CandidatesAsWrittenAgrees` and `CandidatesAsWrittenDrops` state (see Findings).
- The `TypeError` a throwing handler raises is not modelled beyond `Handled.threw`: the model keeps the updates queued before the throw and drops the rest.
- tracker/python/_url_builder.py is not part of this model. Its `build_url` ends without returning anything.
- The export is built on the corrected page-view record (`Exporter.TranslationDataOf`, `Exporter.GroupByPath`, `Exporter.CreateMatrixData`, `Exporter.ProcessTranslationResults`). These use a three-field `Exporter.PageStats` with zero defaults. The written forms, `Exporter.TranslationDataAsWritten`, `Exporter.CreateMatrixDataAsWritten` and `Exporter.ProcessTranslationResultsAsWritten`, raise the `TypeError` (see Findings). The read of `page_view.average_session_duration` at exporter.py:150, which would fail on a `summarize_view` record, is not reached in the written form and is not modelled apart.
- Python dicts are modelled as maps where order does not matter and as sequences of pairs where it does (the camelCase conversion, the JSON entries).
- A matrix category's `last_updated` stamp is not modelled.
- The sort and the reverse of the article list, done in place on a copy in Home.page.tsx, are modelled on values.
- `defaultdict` of mutable `PageView` records is modelled as a map of values.
- `UrlBuilder.UrlParts`: the `_index.html` test of url_builder.py:49 cannot fire once line 36 has required the suffix `.md`. It is modelled but has no lemma.
- The `except ValueError` branch of url_builder.py:42-43 is dead; `UrlBuilder.RelativeToNeverFails` proves it.
- The older language selector's catalog (translations.ts) has the same codes as languageCodes.ts in a different order; `LanguageCodes.CatalogsSameCodes` proves it. Both catalogs are modelled, but only languageCodes.ts drives the column order.
- Logging is not modelled: the `logger.info`/`logger.warning` calls of scripts/python/main.py and scripts/python/pull_requests.py and the `console.log` of web/src/features/language/LanguageSelector.tsx:14 only print.
- The docstring of `extract_blog_date_from_en_path` gives `content/ja/blog/_posts/2025-03-26.md -> 2025-03-26` (exporter.py:52). The pattern only matches `content/en/...`, so the code gives `0000-00-00` for that path, and the model follows the code (`Exporter.BlogDateDefault`).

Deliberately weaker contracts:
- Issue.ExtractPathLike: the three `re.search` calls are not interpreted. Their matches, in pattern order, are the input, and only the longest-match loop of lines 139-145 is modelled.
- Issue.GenPathCandidates, Issue.GenPathCandidatesAsWritten: `strip().lower()` and the word-boundary language substitution of lines 152-158 are not modelled. `GuessPath` takes them as its `rewrite` parameter, and the model starts from the rewritten path.
- Issue.GuessPath, Issue.GuessPathAsWritten: the candidate list is `list(set)`, so its order is Python's set order. The model returns some known candidate and does not say which, since the source does not fix one.
- KeyCase.SerializeDatetime: a datetime value carries its ISO text; `isoformat` itself is not modelled.
- Issue.GuessPath, Issue.GuessPathAsWritten: the known-path set (`all_paths`, lines 254-258) is a parameter; it is built from the file listing.
- ArticleList.SortArticles, ArticleList.FilteredArticles, ArticleList.SortDefinedFilter, ArticleList.FilteredIsSortedSelection, ArticleList.SortArticlesMultiset, ArticleList.FilteredMembership, ArticleList.FilteredOrderedByMetric, ArticleList.FilteredStable, ArticleList.GetFilteredArticles, ListSession.HomeSession.Filtered, ListSession.HomeSession.Current, ListSession.HomeSession.PageCount: these require `SortDefined`. A metric sort of two or more articles where one has no `en` record throws a `TypeError` at `a.translations.en.views` and its siblings (Home.page.tsx:41-61). The model does not cover that error path.
- StatusCell.CellWith, StatusCell.CellOf, StatusCell.CellOfAsWritten: these require a record for the column's language. An article without one makes the destructuring of `article.translations[langCode]` throw a `TypeError` (web/src/features/TranslationStatusCell.tsx:33-34, ui/src/features/TranslationStatusCell.tsx:15-16). That error path is modelled by `StatusCell.RenderCell`, which fails exactly then.
- Issue.GuessLanguage: the method computes the corrected title branch, which keeps the `zh` to `zh-cn` remap. The written form, where line 125 overwrites the remap, is `Issue.GuessedLanguageAsWritten`; `Issue.TitleZhAsWritten` states where they differ (see Findings).
- LanguageCodes.SortedLangCodes, LanguageCodes.GetSortedLangCodes, LanguageCodes.HeadInCatalog, LanguageCodes.EnglishFirst, LanguageCodes.SelectedFollowEnglish, LanguageCodes.SortedLangCodesPermutation, ListSession.LanguageOptions, ListSession.LanguageOptionsShape: these require `SelectionInCatalog`. A stored selection with a code outside the catalog makes `languageCodes.find(...)!` put `undefined` into the column list (languageCodes.ts:144). The model does not cover that case.

## Findings

| source | as written | input that shows it | evidently intended | confidence | as-written member | corrected member |
|---|---|---|---|---|---|---|
| web/src/features/TranslationStatusCell.tsx:71 | `status === 'outdated' && daysBehind && (...)` renders the number `0` when `daysBehind` is 0 (same at ui/src/features/TranslationStatusCell.tsx:53) | an outdated record with 3 commits and 0 days behind | no commits/days line at all | not executed | StatusCell.BehindAsWrittenStrayZero, StatusCell.StrayZeroExample, StatusCell.CellOfAsWrittenDiffers | StatusCell.Behind, StatusCell.CellOf |
| scripts/python/main.py:39 | the lookahead reads only the next character, so the second backslash of an escaped backslash is doubled when a letter follows it, and `\u` is not among the kept escapes | the line `\\d` becomes `\\\d`; `\u00e9` becomes `\\u00e9` | only backslashes that start no valid escape of section 7 of RFC 8259 are doubled, and `\uXXXX` is kept | not executed | JsonRepair.AsWrittenBreaksEscapedBackslash, JsonRepair.AsWrittenDoublesUnicodeEscape | JsonRepair.SanitizeWellEscaped, JsonRepair.SanitizeIdempotent, JsonRepair.UnicodeEscapeKept |
| scripts/python/url_builder.py:56-57 | the docs section page has an empty `doc_path`, and `f"docs/{doc_path}/"` gives a doubled slash | `content/en/docs/_index.md` gives `https://kubernetes.io/docs//` | `https://kubernetes.io/docs/` | not executed | UrlBuilder.DocsSectionUrl, UrlBuilder.BuildUrlAsWrittenDiffers | UrlBuilder.DocsTail, UrlBuilder.BuildUrl |
| scripts/python/issue.py:125 | `guessed_lang = maybe_lang` overwrites the `zh` remap of lines 123-124 | an issue without a language label titled `[zh] ...` is guessed as `zh`, which is not a content directory | `zh-cn`, as the label `language/zh` gives | not executed | Issue.TitleZhAsWritten | Issue.GuessedLanguageIsDirectory |
| scripts/python/issue.py:161 | `lstrip("k8s.io/")` strips any leading run of the characters `k 8 s . i o /`, not the prefix | `k8s.io/id/docs/home` becomes `d/docs/home` | `id/docs/home` | not executed | Issue.SiteRelativeAsWrittenIndonesian, Issue.SiteRelativeAsWrittenAgrees, Issue.CandidatesAsWrittenDrops | Issue.SiteRelativeMeaning, Issue.GenPathCandidates, Issue.GuessPath |
| web/src/features/ArticleListControl.tsx:81-90 | the home page passes no `setPrFilter` (Home.page.tsx:130-152), so `resetFilters` throws at line 84 after resetting only the status and language filters, and the PR select (lines 143-146) throws before it returns to page 1 | a committed search `x` on page 2, then "Reset filters": the search and page 2 stay; "Pull Request" chosen on page 2: the filter stays `all`, the page 2 | the PR state held by the home page, a full reset, and a PR select that returns to page 1 | not executed | ListSession.ResetAsWrittenFallsShort, ListSession.SelectPrAsWrittenExample | ListSession.ResetUnfilters, ListSession.HomeSession.ResetFilters, ListSession.HomeSession.SelectPrFilter |
| scripts/python/exporter.py:134-137 | the default of `page_views.get` is `PageView(views=0, new_users=0, average_session_duration=0.0)`, evaluated for every result, and the dataclass (page_view.py:7-12) declares no `average_session_duration`, so the call raises `TypeError` | any export with one result that passes `should_process` | a default record of the declared fields, or a third field declared on `PageView`, so that each translation gets its page views | not executed | Exporter.TranslationDataAsWritten, Exporter.CreateMatrixDataAsWritten, Exporter.ProcessTranslationResultsAsWritten | Exporter.TranslationDataOf, Exporter.CreateMatrixData, Exporter.ProcessTranslationResults |

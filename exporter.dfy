/**
  scripts/python/exporter.py: which translation status results are exported, the category
  an article is filed under, and the category-by-category matrix of articles with the record
  of every translation of each. The JSON files, the clock that stamps `last_updated` and the
  CSV file behind the page views are left out: the page views, the site's URLs and the front
  matter of the English files are the `Site` an export runs against.
*/
module Exporter {
  import opened Wrappers
  import opened Strings
  import opened Seqs
  import opened StableSort
  import opened PosixPath
  import UrlBuilder

  /** The fields of a `TranslationStatusResult` the exporter reads. */
  datatype StatusResult = StatusResult(
    targetPath: string,
    englishPath: string,
    language: string,
    category: string,
    status: string,
    severity: string,
    daysBehind: int,
    commitsBehind: int,
    totalChangeLines: int,
    insertionsBehindLines: int,
    deletionsBehindLines: int,
    targetLatestDate: Option<string>,
    englishLatestDate: string,
    missingCommits: seq<string>)

  /** The page view of a URL as `create_matrix_data` builds it, with the third field it passes. */
  datatype PageStats = PageStats(views: int, newUsers: int, averageSessionDuration: int)

  const NoStats: PageStats := PageStats(0, 0, 0)

  /** What an export reads besides the results: the site's URLs, the page views and the front matters. */
  datatype Site = Site(
    existingUrls: set<string>,
    pageViews: map<string, PageStats>,
    frontMatters: map<string, map<string, string>>)

  // ---------------------------------------------------------------- should_process

  const SupportedSuffixes: set<string> := {".md", ".html"}

  /** `should_process`: a Markdown or HTML file, judged on the lowercased path, of a known category. */
  predicate ShouldProcess(r: StatusResult) {
    Suffix(Name(Lower(r.englishPath))) in SupportedSuffixes && r.category != "unknown"
  }

  /** The test is blind to the case of the path. */
  lemma ShouldProcessIgnoresCase(r: StatusResult)
    ensures ShouldProcess(r.(englishPath := Lower(r.englishPath))) == ShouldProcess(r)
  {
    LowerIdempotent(r.englishPath);
  }

  /**
    A result is processed exactly when its category is known and the last part of its
    lowercased path ends in `.md` or `.html` after at least one more character.
  */
  lemma ShouldProcessMeaning(r: StatusResult)
    ensures ShouldProcess(r) <==> r.category != "unknown" && var name := Name(Lower(r.englishPath));
      (EndsWith(name, ".md") && |name| > 3) || (EndsWith(name, ".html") && |name| > 5)
  {
    var name := Name(Lower(r.englishPath));
    SuffixIs(name, ".md");
    SuffixIs(name, ".html");
  }

  // ---------------------------------------------------------------- regular-expression search

  /** The leftmost index in `[lo, hi]` where `p` holds: where `re.search` reports its match. */
  function FirstMatch(lo: nat, hi: nat, p: nat -> bool): (r: Option<nat>)
    ensures r.Some? ==> lo <= r.value <= hi && p(r.value) && forall j :: lo <= j < r.value ==> !p(j)
    ensures r.None? ==> forall j :: lo <= j <= hi ==> !p(j)
    decreases hi + 1 - lo
  {
    if lo > hi then None else if p(lo) then Some(lo) else FirstMatch(lo + 1, hi, p)
  }

  // ---------------------------------------------------------------- extract_blog_date_from_en_path

  const PostsDir := "content/en/blog/_posts/"

  const NoDate := "0000-00-00"

  /** `content/en/blog/_posts/(\d{4}-\d{2}-\d{2})` matches at `i`. */
  predicate PostDateAt(s: string, i: nat) {
    i + |PostsDir| <= |s| && s[i..i + |PostsDir|] == PostsDir && UrlBuilder.DateParts(s[i + |PostsDir|..]).Some?
  }

  function PostDateMatcher(s: string): nat -> bool {
    (i: nat) => PostDateAt(s, i)
  }

  /** `extract_blog_date_from_en_path`: the date after the leftmost English posts directory, else `0000-00-00`. */
  function ExtractBlogDate(s: string): (r: string)
    ensures |r| == 10
  {
    match FirstMatch(0, |s|, PostDateMatcher(s))
    case None => NoDate
    case Some(i) =>
      var j := i + |PostsDir|;
      s[j..j + 10]
  }

  /** A post of the English blog gives the date its file name starts with. */
  lemma BlogDateOfPost(y: string, m: string, d: string, rest: string)
    requires |y| == 4 && |m| == 2 && |d| == 2 && AllDigits(y) && AllDigits(m) && AllDigits(d)
    ensures ExtractBlogDate(PostsDir + (y + "-" + m + "-" + d + rest)) == y + "-" + m + "-" + d
  {
    var date := y + "-" + m + "-" + d;
    var t := date + rest;
    var s := PostsDir + t;
    assert s[..|PostsDir|] == PostsDir;
    assert s[|PostsDir|..] == t;
    assert t[..4] == y && t[4] == '-' && t[5..7] == m && t[7] == '-' && t[8..10] == d;
    assert PostDateAt(s, 0);
    assert s[|PostsDir|..|PostsDir| + 10] == t[..10] == date;
  }

  lemma PostDateContains(s: string, i: nat)
    ensures PostDateAt(s, i) ==> Contains(s, PostsDir)
  {
    if PostDateAt(s, i) {
      ContainsAt(s, PostsDir, i);
    }
  }

  /**
    A path without the English posts directory gets the default date; so does every path of
    another language, whatever its file name.
  */
  lemma BlogDateDefault(s: string)
    requires !Contains(s, PostsDir)
    ensures ExtractBlogDate(s) == NoDate
  {
    forall i | 0 <= i <= |s| ensures !PostDateAt(s, i) {
      PostDateContains(s, i);
    }
  }

  /** Wherever the posts directory appears, if no date follows it the path gets the default date. */
  lemma BlogDateUndated(s: string)
    requires forall i :: 0 <= i <= |s| ==> !PostDateAt(s, i)
    ensures ExtractBlogDate(s) == NoDate
  {
  }

  /**
    A post of the English blog whose file name starts with no date gets the default date. (The
    docstring's example `content/ja/blog/_posts/2025-03-26.md -> 2025-03-26` is not what the
    pattern gives: a path of another language falls under `BlogDateDefault`.)
  */
  lemma UndatedPostExample()
    ensures ExtractBlogDate(PostsDir + "hello.md") == NoDate
  {
    var s := PostsDir + "hello.md";
    forall i | 0 <= i <= |s| ensures !PostDateAt(s, i) {
      if i == 0 {
        assert s[|PostsDir|..] == "hello.md";
      } else if i + |PostsDir| <= |s| {
        var last := i + |PostsDir| - 1;
        assert s[last] == "hello.md"[last - |PostsDir|];
        assert s[i..i + |PostsDir|][|PostsDir| - 1] == s[last] != '/';
      }
    }
    BlogDateUndated(s);
  }

  // ---------------------------------------------------------------- extract_docs_subcategory

  /** The length of the run of characters other than `/` from `i` on: what a greedy `[^/]+` takes. */
  function RunLength(s: string, i: nat): (n: nat)
    requires i <= |s|
    ensures i + n <= |s|
    ensures forall k :: i <= k < i + n ==> s[k] != '/'
    ensures i + n == |s| || s[i + n] == '/'
    decreases |s| - i
  {
    if i == |s| || s[i] == '/' then 0 else 1 + RunLength(s, i + 1)
  }

  /** A slash-free stretch ended by a slash or by the end is exactly one run. */
  lemma {:induction false} RunLengthOf(s: string, i: nat, a: string)
    requires i + |a| <= |s| && s[i..i + |a|] == a && '/' !in a
    requires i + |a| == |s| || s[i + |a|] == '/'
    ensures RunLength(s, i) == |a|
    decreases |a|
  {
    if a != [] {
      assert s[i] == a[0];
      assert s[i + 1..i + 1 + |a[1..]|] == a[1..];
      RunLengthOf(s, i + 1, a[1..]);
    }
  }

  const ContentDir := "content/"

  const DocsDir := "/docs/"

  /** Where the directory after `content/` ends, for a match at `i`. */
  function LanguageEnd(s: string, i: nat): nat
    requires i + |ContentDir| <= |s|
  {
    i + |ContentDir| + RunLength(s, i + |ContentDir|)
  }

  /** `content/[^/]+/docs/([^/]+)` matches at `i`. */
  predicate DocsAt(s: string, i: nat) {
    && i + |ContentDir| <= |s| && s[i..i + |ContentDir|] == ContentDir
    && var j := LanguageEnd(s, i);
    && j > i + |ContentDir| && j + |DocsDir| <= |s| && s[j..j + |DocsDir|] == DocsDir
    && RunLength(s, j + |DocsDir|) > 0
  }

  function DocsMatcher(s: string): nat -> bool {
    (i: nat) => DocsAt(s, i)
  }

  /** The captured group of a match at `i`. */
  function DocsSegment(s: string, i: nat): (r: string)
    requires DocsAt(s, i)
    ensures r != "" && forall k :: 0 <= k < |r| ==> r[k] != '/'
  {
    var j := LanguageEnd(s, i) + |DocsDir|;
    s[j..j + RunLength(s, j)]
  }

  /** `extract_docs_subcategory`: the segment after the leftmost `content/<x>/docs/`, unless it is a Markdown file. */
  function ExtractDocsSubcategory(s: string): (r: Option<string>)
    ensures r.Some? ==> r.value != "" && '/' !in r.value && !EndsWith(r.value, ".md")
  {
    match FirstMatch(0, |s|, DocsMatcher(s))
    case None => None
    case Some(i) =>
      var seg := DocsSegment(s, i);
      if EndsWith(seg, ".md") then None else Some(seg)
  }

  /**
    Under `content/<lang>/docs/`, the first segment is the subcategory when it is a directory
    (`getting-started` of `getting-started/installation.md`) and nothing when it is a Markdown
    file (`overview.md`).
  */
  lemma DocsSubcategoryOf(lang: string, sub: string, rest: string)
    requires lang != "" && '/' !in lang && sub != "" && '/' !in sub
    requires rest == "" || rest[0] == '/'
    ensures ExtractDocsSubcategory(ContentDir + lang + DocsDir + sub + rest) == if EndsWith(sub, ".md") then None else Some(sub)
  {
    var s := ContentDir + lang + DocsDir + sub + rest;
    var a := |ContentDir|;
    var b := a + |lang|;
    var c := b + |DocsDir|;
    assert s[..a] == ContentDir;
    assert s[a..b] == lang;
    assert s[b..c] == DocsDir;
    assert s[c..c + |sub|] == sub;
    RunLengthOf(s, a, lang);
    assert b + |rest| + |DocsDir| + |sub| == |s|;
    if rest != "" {
      assert s[c + |sub|] == rest[0];
    }
    RunLengthOf(s, c, sub);
    assert DocsAt(s, 0);
    assert DocsSegment(s, 0) == sub;
  }

  // ---------------------------------------------------------------- build_category_name

  /** `build_category_name`: docs pages are filed under their subcategory, or `docs_misc`. */
  function BuildCategoryName(category: string, englishPath: string): (r: string)
    ensures category != "docs" ==> r == category
    ensures category == "docs" ==> StartsWith(r, "docs_") && |r| > 5
  {
    if category == "docs" then
      var sub := ExtractDocsSubcategory(englishPath);
      if sub.Some? && sub.value != "" then "docs_" + sub.value else "docs_misc"
    else category
  }

  /** The category of a docs page follows its first directory under `docs/`. */
  lemma DocsCategoryOf(lang: string, sub: string, rest: string)
    requires lang != "" && '/' !in lang && sub != "" && '/' !in sub
    requires rest == "" || rest[0] == '/'
    ensures BuildCategoryName("docs", ContentDir + lang + DocsDir + sub + rest) ==
      if EndsWith(sub, ".md") then "docs_misc" else "docs_" + sub
  {
    DocsSubcategoryOf(lang, sub, rest);
  }

  // ---------------------------------------------------------------- URLs

  /** The front matter of an English file; a file without one reads as none. */
  function FrontMatterOf(site: Site, englishPath: string): UrlBuilder.FrontMatter {
    if englishPath in site.frontMatters then Some(site.frontMatters[englishPath]) else None
  }

  function EnglishUrl(site: Site, englishPath: string): Option<string> {
    UrlBuilder.BuildUrl(englishPath, "en", site.existingUrls, UrlBuilder.DefaultBaseUrl, FrontMatterOf(site, englishPath))
  }

  function TranslationUrl(site: Site, r: StatusResult): Option<string> {
    UrlBuilder.BuildUrl(r.englishPath, r.language, site.existingUrls, UrlBuilder.DefaultBaseUrl, FrontMatterOf(site, r.englishPath))
  }

  // ---------------------------------------------------------------- create_detail_data

  datatype DetailData = DetailData(
    targetPath: string,
    englishPath: string,
    englishUrl: Option<string>,
    translationUrl: Option<string>,
    targetLatestDate: Option<string>,
    englishLatestDate: string,
    daysBehind: int,
    commitsBehind: int,
    totalChangeLines: int,
    insertionsBehindLines: int,
    deletionsBehindLines: int,
    status: string,
    severity: string,
    missingCommits: seq<string>)

  /** `create_detail_data`: the result's own fields and its two URLs. */
  function CreateDetailData(r: StatusResult, site: Site): (d: DetailData)
    ensures d.translationUrl.Some? || d.englishUrl.Some? ==> UrlBuilder.UrlParts(r.englishPath).Some?
  {
    DetailData(
      r.targetPath, r.englishPath, EnglishUrl(site, r.englishPath), TranslationUrl(site, r),
      r.targetLatestDate, r.englishLatestDate, r.daysBehind, r.commitsBehind, r.totalChangeLines,
      r.insertionsBehindLines, r.deletionsBehindLines, r.status, r.severity, r.missingCommits)
  }

  /** The result a detail was made from, given the two fields the detail does not carry. */
  function ResultOfDetail(d: DetailData, language: string, category: string): StatusResult {
    StatusResult(
      d.targetPath, d.englishPath, language, category, d.status, d.severity, d.daysBehind,
      d.commitsBehind, d.totalChangeLines, d.insertionsBehindLines, d.deletionsBehindLines,
      d.targetLatestDate, d.englishLatestDate, d.missingCommits)
  }

  /** A detail loses nothing of its result but the language and the category. */
  lemma DetailRoundTrip(r: StatusResult, site: Site)
    ensures ResultOfDetail(CreateDetailData(r, site), r.language, r.category) == r
  {
  }

  /**
    Outside the blog both URLs exist, and the translated one is the English one with the
    language inserted after the site; in the blog, a URL is only given when the site has it.
  */
  lemma DetailUrls(r: StatusResult, site: Site)
    ensures var d := CreateDetailData(r, site); var parts := UrlBuilder.UrlParts(r.englishPath);
      && (parts.Some? && parts.value[0] != "blog" ==>
            && d.englishUrl.Some? && StartsWith(d.englishUrl.value, UrlBuilder.DefaultBaseUrl + "/")
            && d.translationUrl == Some(UrlBuilder.DefaultBaseUrl + "/" + UrlBuilder.LangPrefix(r.language)
                 + d.englishUrl.value[|UrlBuilder.DefaultBaseUrl| + 1..]))
      && (parts.Some? && parts.value[0] == "blog" ==>
            (d.englishUrl.Some? ==> d.englishUrl.value in site.existingUrls)
            && (d.translationUrl.Some? ==> d.translationUrl.value in site.existingUrls))
  {
    var parts := UrlBuilder.UrlParts(r.englishPath);
    if parts.Some? && parts.value[0] != "blog" {
      UrlBuilder.LocalizedUrl(r.englishPath, r.language, site.existingUrls, UrlBuilder.DefaultBaseUrl, FrontMatterOf(site, r.englishPath));
    }
  }

  // ---------------------------------------------------------------- create_matrix_data

  /** The record of one translation in the matrix. */
  datatype TranslationData = TranslationData(
    status: string,
    severity: string,
    daysBehind: int,
    commitsBehind: int,
    totalChangeLines: int,
    targetLatestDate: Option<string>,
    englishLatestDate: string,
    translationUrl: Option<string>,
    views: int,
    newUsers: int,
    averageSessionDuration: int)

  /** An article of the matrix: an English page and its translations by language. */
  datatype Article = Article(englishPath: string, englishUrl: Option<string>, translations: map<string, TranslationData>)

  /** `page_views.get(translation_url, PageView(0, 0, 0.0))`. */
  function ViewsOf(site: Site, url: Option<string>): PageStats {
    if url.Some? && url.value in site.pageViews then site.pageViews[url.value] else NoStats
  }

  /** The record of a result, with the page views of its translated URL. */
  function TranslationDataOf(r: StatusResult, site: Site): (t: TranslationData)
    ensures t.translationUrl == TranslationUrl(site, r)
    ensures t.translationUrl.None? || t.translationUrl.value !in site.pageViews ==>
      t.views == 0 && t.newUsers == 0 && t.averageSessionDuration == 0
    ensures t.translationUrl.Some? && t.translationUrl.value in site.pageViews ==>
      var v := site.pageViews[t.translationUrl.value];
      t.views == v.views && t.newUsers == v.newUsers && t.averageSessionDuration == v.averageSessionDuration
  {
    var url := TranslationUrl(site, r);
    var v := ViewsOf(site, url);
    TranslationData(
      r.status, r.severity, r.daysBehind, r.commitsBehind, r.totalChangeLines,
      r.targetLatestDate, r.englishLatestDate, url, v.views, v.newUsers, v.averageSessionDuration)
  }

  /** The fields the `PageView` dataclass declares at page_view.py:7-12. */
  const PageViewFields: set<string> := {"views", "new_users"}

  /** The keyword arguments of the default record at exporter.py:136. */
  const DefaultKeywords: set<string> := {"views", "new_users", "average_session_duration"}

  const UnexpectedKeyword := "TypeError: unexpected keyword argument"

  const MissingArgument := "TypeError: missing required argument"

  /** Calling the `PageView` dataclass with keyword arguments: an unexpected or a missing one raises `TypeError`. */
  function PageViewCall(keywords: set<string>): (r: Result<(), string>)
    ensures r.Success? <==> keywords == PageViewFields
    ensures r.Failure? && (exists k :: k in keywords && k !in PageViewFields) ==> r.error == UnexpectedKeyword
  {
    if !(keywords <= PageViewFields) then Failure(UnexpectedKeyword)
    else if !(PageViewFields <= keywords) then Failure(MissingArgument)
    else Success(())
  }

  /**
    Lines 134-151 as written: the default of `page_views.get` is built before the lookup, with
    a keyword `PageView` does not declare, so every result raises `TypeError`.
  */
  function TranslationDataAsWritten(r: StatusResult, site: Site): (x: Result<TranslationData, string>)
    ensures x == Failure(UnexpectedKeyword)
  {
    assert "average_session_duration" in DefaultKeywords && "average_session_duration" !in PageViewFields;
    match PageViewCall(DefaultKeywords)
    case Failure(e) => Failure(e)
    case Success(_) => Success(TranslationDataOf(r, site))
  }

  function DataOf(site: Site): StatusResult -> TranslationData {
    (r: StatusResult) => TranslationDataOf(r, site)
  }

  function PathOf(): StatusResult -> string {
    (r: StatusResult) => r.englishPath
  }

  /** The English paths in order of first appearance: the keys of `articles_by_english_path`. */
  function PathOrder(results: seq<StatusResult>): seq<string> {
    Dedup(Map(results, PathOf()))
  }

  /** `articles_by_english_path[path]`: each language keeps the record of its last result. */
  function TranslationsOf(results: seq<StatusResult>, path: string, data: StatusResult -> TranslationData): map<string, TranslationData>
    decreases |results|
  {
    if results == [] then map[]
    else
      var m := TranslationsOf(results[..|results| - 1], path, data);
      var r := results[|results| - 1];
      if r.englishPath == path then m[r.language := data(r)] else m
  }

  /** The category of the first result of a path: the `next(...)` of the second loop. */
  function FirstCategory(results: seq<StatusResult>, path: string): Option<string>
    decreases |results|
  {
    if results == [] then None
    else if results[0].englishPath == path then Some(results[0].category)
    else FirstCategory(results[1..], path)
  }

  /** The matrix category of a path. */
  function CategoryNameOf(results: seq<StatusResult>, path: string): Option<string> {
    match FirstCategory(results, path)
    case None => None
    case Some(c) => Some(BuildCategoryName(c, path))
  }

  /** The categories of some paths. */
  function CategoryNames(results: seq<StatusResult>, paths: seq<string>): set<string>
    decreases |paths|
  {
    if paths == [] then {}
    else
      var names := CategoryNames(results, paths[..|paths| - 1]);
      match CategoryNameOf(results, paths[|paths| - 1])
      case None => names
      case Some(c) => names + {c}
  }

  function InCategory(results: seq<StatusResult>, c: string): string -> bool {
    (p: string) => CategoryNameOf(results, p) == Some(c)
  }

  function ArticleOf(results: seq<StatusResult>, site: Site, path: string): Article {
    Article(path, EnglishUrl(site, path), TranslationsOf(results, path, DataOf(site)))
  }

  function ArticleFn(results: seq<StatusResult>, site: Site): string -> Article {
    (p: string) => ArticleOf(results, site, p)
  }

  /** The articles of a category before the blog is sorted: its paths in order of first appearance. */
  function ArticlesIn(results: seq<StatusResult>, site: Site, c: string): seq<Article> {
    Map(Filter(PathOrder(results), InCategory(results, c)), ArticleFn(results, site))
  }

  function BlogDateKey(): Article -> string {
    (a: Article) => ExtractBlogDate(a.englishPath)
  }

  /** Newest first: `sort(key=..., reverse=True)` compares the dates as strings. */
  function NewestFirst(): (Article, Article) -> bool {
    ByStringKey(BlogDateKey(), true)
  }

  function SortBlog(articles: seq<Article>): seq<Article> {
    Sort(articles, NewestFirst())
  }

  /** The articles of a category in the finished matrix. */
  function CategoryArticles(results: seq<StatusResult>, site: Site, c: string): seq<Article> {
    if c == "blog" then SortBlog(ArticlesIn(results, site, c)) else ArticlesIn(results, site, c)
  }

  function GetTranslations(m: map<string, map<string, TranslationData>>, path: string): map<string, TranslationData> {
    if path in m then m[path] else map[]
  }

  function GetArticles(m: map<string, seq<Article>>, c: string): seq<Article> {
    if c in m then m[c] else []
  }

  /** The grouping after one more result. */
  lemma GroupStep(results: seq<StatusResult>, i: nat, data: StatusResult -> TranslationData, byPath: map<string, map<string, TranslationData>>, paths: seq<string>)
    requires i < |results|
    requires paths == PathOrder(results[..i])
    requires forall p :: GetTranslations(byPath, p) == TranslationsOf(results[..i], p, data)
    requires forall p :: p in byPath <==> p in paths
    ensures var r := results[i];
      var paths' := if r.englishPath in byPath then paths else paths + [r.englishPath];
      var byPath' := byPath[r.englishPath := GetTranslations(byPath, r.englishPath)[r.language := data(r)]];
      && paths' == PathOrder(results[..i + 1])
      && (forall p :: GetTranslations(byPath', p) == TranslationsOf(results[..i + 1], p, data))
      && (forall p :: p in byPath' <==> p in paths')
  {
    var r := results[i];
    PathOrderStep(results, i);
    var byPath' := byPath[r.englishPath := GetTranslations(byPath, r.englishPath)[r.language := data(r)]];
    forall p ensures GetTranslations(byPath', p) == TranslationsOf(results[..i + 1], p, data) {
      TranslationsStep(results, i, p, data);
      if p == r.englishPath {
        assert GetTranslations(byPath', p) == GetTranslations(byPath, p)[r.language := data(r)];
      } else {
        assert GetTranslations(byPath', p) == GetTranslations(byPath, p);
      }
    }
  }

  lemma PathOrderStep(results: seq<StatusResult>, i: nat)
    requires i < |results|
    ensures var x := results[i].englishPath;
      && (x in PathOrder(results[..i]) <==> x in Map(results[..i], PathOf()))
      && PathOrder(results[..i + 1]) == if x in Map(results[..i], PathOf()) then PathOrder(results[..i]) else PathOrder(results[..i]) + [x]
  {
    assert Map(results[..i + 1], PathOf()) == Map(results[..i], PathOf()) + [results[i].englishPath];
    DedupSnoc(Map(results[..i], PathOf()), results[i].englishPath);
  }

  lemma TranslationsStep(results: seq<StatusResult>, i: nat, p: string, data: StatusResult -> TranslationData)
    requires i < |results|
    ensures TranslationsOf(results[..i + 1], p, data) ==
      if results[i].englishPath == p then TranslationsOf(results[..i], p, data)[results[i].language := data(results[i])]
      else TranslationsOf(results[..i], p, data)
  {
    assert results[..i + 1][..i] == results[..i];
  }

  /** The articles of every category after one more path. */
  lemma ArrangeStep(results: seq<StatusResult>, site: Site, paths: seq<string>, k: nat, matrix: map<string, seq<Article>>)
    requires k < |paths|
    requires CategoryNameOf(results, paths[k]).Some?
    requires forall c :: GetArticles(matrix, c) == Map(Filter(paths[..k], InCategory(results, c)), ArticleFn(results, site))
    ensures var name := CategoryNameOf(results, paths[k]).value;
      var matrix' := matrix[name := GetArticles(matrix, name) + [ArticleOf(results, site, paths[k])]];
      forall c :: GetArticles(matrix', c) == Map(Filter(paths[..k + 1], InCategory(results, c)), ArticleFn(results, site))
  {
    var p := paths[k];
    var name := CategoryNameOf(results, p).value;
    var matrix' := matrix[name := GetArticles(matrix, name) + [ArticleOf(results, site, p)]];
    forall c ensures GetArticles(matrix', c) == Map(Filter(paths[..k + 1], InCategory(results, c)), ArticleFn(results, site)) {
      CategoryStep(results, site, paths, k, c);
      if c == name {
        assert GetArticles(matrix', c) == GetArticles(matrix, c) + [ArticleOf(results, site, p)];
      } else {
        assert GetArticles(matrix', c) == GetArticles(matrix, c);
      }
    }
  }

  /** The categories after one more path. */
  lemma NamesStep(results: seq<StatusResult>, paths: seq<string>, k: nat)
    requires k < |paths|
    requires CategoryNameOf(results, paths[k]).Some?
    ensures CategoryNames(results, paths[..k + 1]) == CategoryNames(results, paths[..k]) + {CategoryNameOf(results, paths[k]).value}
  {
    assert paths[..k + 1][..k] == paths[..k];
  }

  /** One more path adds its article to its own category and changes no other. */
  lemma CategoryStep(results: seq<StatusResult>, site: Site, paths: seq<string>, k: nat, c: string)
    requires k < |paths|
    ensures Map(Filter(paths[..k + 1], InCategory(results, c)), ArticleFn(results, site)) ==
      Map(Filter(paths[..k], InCategory(results, c)), ArticleFn(results, site))
        + (if CategoryNameOf(results, paths[k]) == Some(c) then [ArticleOf(results, site, paths[k])] else [])
  {
    assert paths[..k + 1] == paths[..k] + [paths[k]];
    MapFilterSnoc(paths[..k], paths[k], InCategory(results, c), ArticleFn(results, site));
  }

  /** A path that some result has has a category. */
  lemma {:induction false} OccursHasCategory(results: seq<StatusResult>, path: string)
    requires path in Map(results, PathOf())
    ensures FirstCategory(results, path).Some?
    decreases |results|
  {
    if results[0].englishPath != path {
      var k :| 0 <= k < |results| && Map(results, PathOf())[k] == path;
      assert k > 0;
      assert Map(results[1..], PathOf())[k - 1] == path;
      OccursHasCategory(results[1..], path);
    }
  }

  /** The first loop of `create_matrix_data`: `articles_by_english_path`, with its keys in insertion order. */
  method GroupByPath(results: seq<StatusResult>, site: Site) returns (paths: seq<string>, byPath: map<string, map<string, TranslationData>>)
    ensures paths == PathOrder(results)
    ensures forall p :: GetTranslations(byPath, p) == TranslationsOf(results, p, DataOf(site))
    ensures forall p :: p in byPath <==> p in paths
  {
    var data := DataOf(site);
    byPath := map[];
    paths := [];
    var i := 0;
    while i < |results|
      invariant 0 <= i <= |results|
      invariant paths == PathOrder(results[..i])
      invariant forall p :: GetTranslations(byPath, p) == TranslationsOf(results[..i], p, data)
      invariant forall p :: p in byPath <==> p in paths
    {
      GroupStep(results, i, data, byPath, paths);
      var r := results[i];
      var current := GetTranslations(byPath, r.englishPath);
      if r.englishPath !in byPath {
        paths := paths + [r.englishPath];
      }
      byPath := byPath[r.englishPath := current[r.language := data(r)]];
      i := i + 1;
    }
    assert results[..i] == results;
  }

  /** The matrix the second loop has built after some paths: each path's article appended to its category. */
  function Arranged(results: seq<StatusResult>, site: Site, paths: seq<string>): map<string, seq<Article>>
    decreases |paths|
  {
    if paths == [] then map[]
    else
      var m := Arranged(results, site, paths[..|paths| - 1]);
      var p := paths[|paths| - 1];
      match CategoryNameOf(results, p)
      case None => m
      case Some(name) => m[name := GetArticles(m, name) + [ArticleOf(results, site, p)]]
  }

  lemma ArrangedStep(results: seq<StatusResult>, site: Site, paths: seq<string>, k: nat)
    requires k < |paths| && CategoryNameOf(results, paths[k]).Some?
    ensures var m := Arranged(results, site, paths[..k]);
      var name := CategoryNameOf(results, paths[k]).value;
      Arranged(results, site, paths[..k + 1]) == m[name := GetArticles(m, name) + [ArticleOf(results, site, paths[k])]]
  {
    assert paths[..k + 1][..k] == paths[..k];
  }

  /** After some paths, each category lists the articles of those of its paths, in their order, and no other category appears. */
  lemma {:induction false} ArrangedMeaning(results: seq<StatusResult>, site: Site, paths: seq<string>)
    ensures forall c :: GetArticles(Arranged(results, site, paths), c) == Map(Filter(paths, InCategory(results, c)), ArticleFn(results, site))
    ensures Arranged(results, site, paths).Keys == CategoryNames(results, paths)
    decreases |paths|
  {
    if paths != [] {
      var k := |paths| - 1;
      ArrangedMeaning(results, site, paths[..k]);
      var m := Arranged(results, site, paths[..k]);
      assert paths[..k + 1] == paths;
      if CategoryNameOf(results, paths[k]).Some? {
        ArrangeStep(results, site, paths, k, m);
        NamesStep(results, paths, k);
      } else {
        forall c ensures GetArticles(Arranged(results, site, paths), c) == Map(Filter(paths, InCategory(results, c)), ArticleFn(results, site)) {
          CategoryStep(results, site, paths, k, c);
        }
      }
    }
  }

  /** The second loop of `create_matrix_data`: each path's article is appended to its category. */
  method ArrangeArticles(results: seq<StatusResult>, site: Site, paths: seq<string>, byPath: map<string, map<string, TranslationData>>)
    returns (matrix: map<string, seq<Article>>)
    requires paths == PathOrder(results)
    requires forall p :: GetTranslations(byPath, p) == TranslationsOf(results, p, DataOf(site))
    requires forall p :: p in byPath <==> p in paths
    ensures forall c :: GetArticles(matrix, c) == ArticlesIn(results, site, c)
    ensures matrix.Keys == CategoryNames(results, paths)
  {
    matrix := map[];
    var k := 0;
    while k < |paths|
      invariant 0 <= k <= |paths|
      invariant matrix == Arranged(results, site, paths[..k])
    {
      var path := paths[k];
      assert path in Map(results, PathOf());
      OccursHasCategory(results, path);
      var category := FirstCategory(results, path).value;
      var name := BuildCategoryName(category, path);
      assert byPath[path] == TranslationsOf(results, path, DataOf(site)) by {
        assert GetTranslations(byPath, path) == TranslationsOf(results, path, DataOf(site));
      }
      var article := Article(path, EnglishUrl(site, path), byPath[path]);
      ArrangedStep(results, site, paths, k);
      matrix := matrix[name := GetArticles(matrix, name) + [article]];
      k := k + 1;
    }
    assert paths[..k] == paths;
    ArrangedMeaning(results, site, paths);
  }

  /**
    `create_matrix_data`: the results are grouped by English path and keyed by language, each
    path becomes one article of the category of its first result, and the blog is sorted newest
    first. The articles of every other category keep the order in which their paths first appear.
  */
  method CreateMatrixData(results: seq<StatusResult>, site: Site) returns (matrix: map<string, seq<Article>>)
    ensures matrix.Keys == CategoryNames(results, PathOrder(results))
    ensures forall c :: GetArticles(matrix, c) == CategoryArticles(results, site, c)
  {
    var paths, byPath := GroupByPath(results, site);
    var arranged := ArrangeArticles(results, site, paths, byPath);
    matrix := arranged;
    if "blog" in matrix {
      matrix := matrix["blog" := SortBlog(matrix["blog"])];
    }
    forall c ensures GetArticles(matrix, c) == CategoryArticles(results, site, c) {
      assert GetArticles(arranged, c) == ArticlesIn(results, site, c);
      if c == "blog" && "blog" !in arranged {
        assert SortBlog([]) == [] by { SortBlogMeaning([]); }
      }
    }
  }

  /**
    `create_matrix_data` as written: the first pass of the first loop raises (`TranslationDataAsWritten`),
    so only an empty input gets through, and it gives the empty matrix the corrected form gives.
  */
  method CreateMatrixDataAsWritten(results: seq<StatusResult>, site: Site) returns (r: Result<map<string, seq<Article>>, string>)
    ensures r.Failure? <==> results != []
    ensures r.Failure? ==> r.error == UnexpectedKeyword
    ensures r.Success? ==> r.value == map[]
  {
    if results != [] {
      var t := TranslationDataAsWritten(results[0], site);
      return Failure(t.error);
    }
    var matrix := CreateMatrixData(results, site);
    assert matrix.Keys == {};
    r := Success(matrix);
  }

  /** The first result of a path is the one `next(...)` finds. */
  lemma {:induction false} FirstCategoryIsFirst(results: seq<StatusResult>, path: string)
    ensures FirstCategory(results, path).Some? <==> path in Map(results, PathOf())
    ensures FirstCategory(results, path).Some? ==>
      exists k :: && 0 <= k < |results| && results[k].englishPath == path
                  && Some(results[k].category) == FirstCategory(results, path)
                  && forall j :: 0 <= j < k ==> results[j].englishPath != path
    decreases |results|
  {
    if results != [] {
      var rest := results[1..];
      FirstCategoryIsFirst(rest, path);
      forall k | 0 <= k < |rest| ensures rest[k] == results[k + 1] {}
      if results[0].englishPath != path {
        if path in Map(results, PathOf()) {
          var k :| 0 <= k < |results| && Map(results, PathOf())[k] == path;
          assert Map(rest, PathOf())[k - 1] == path;
        }
        if path in Map(rest, PathOf()) {
          var k :| 0 <= k < |rest| && Map(rest, PathOf())[k] == path;
          assert Map(results, PathOf())[k + 1] == path;
        }
        if FirstCategory(rest, path).Some? {
          var k :| 0 <= k < |rest| && rest[k].englishPath == path
            && Some(rest[k].category) == FirstCategory(rest, path)
            && forall j :: 0 <= j < k ==> rest[j].englishPath != path;
          assert results[k + 1] == rest[k];
          forall j | 0 <= j < k + 1 ensures results[j].englishPath != path {
            if j > 0 {
              assert results[j] == rest[j - 1];
            }
          }
        }
      } else {
        assert Map(results, PathOf())[0] == path;
      }
    }
  }

  predicate Keyed(r: StatusResult, path: string, language: string) {
    r.englishPath == path && r.language == language
  }

  /** The languages of a page's translations are those some result of the page has. */
  lemma {:induction false} TranslationsOfKeys(results: seq<StatusResult>, path: string, data: StatusResult -> TranslationData, language: string)
    ensures language in TranslationsOf(results, path, data) <==>
      exists k :: 0 <= k < |results| && Keyed(results[k], path, language)
    decreases |results|
  {
    if results != [] {
      var n := |results| - 1;
      var init := results[..n];
      TranslationsOfKeys(init, path, data, language);
      if Keyed(results[n], path, language) {
        assert language in TranslationsOf(results, path, data);
      } else {
        assert language in TranslationsOf(results, path, data) <==> language in TranslationsOf(init, path, data);
        if exists k :: 0 <= k < |results| && Keyed(results[k], path, language) {
          var k :| 0 <= k < |results| && Keyed(results[k], path, language);
          assert init[k] == results[k];
        }
        if exists k :: 0 <= k < n && Keyed(init[k], path, language) {
          var k :| 0 <= k < n && Keyed(init[k], path, language);
          assert init[k] == results[k];
        }
      }
    }
  }

  /** A language of a page has the record of the last result of the page in that language. */
  lemma {:induction false} TranslationsOfLast(results: seq<StatusResult>, path: string, data: StatusResult -> TranslationData, language: string)
    requires language in TranslationsOf(results, path, data)
    ensures exists k :: && 0 <= k < |results| && Keyed(results[k], path, language)
                        && TranslationsOf(results, path, data)[language] == data(results[k])
                        && forall j :: k < j < |results| ==> !Keyed(results[j], path, language)
    decreases |results|
  {
    var n := |results| - 1;
    var init := results[..n];
    if Keyed(results[n], path, language) {
      assert TranslationsOf(results, path, data)[language] == data(results[n]);
    } else {
      assert TranslationsOf(results, path, data)[language] == TranslationsOf(init, path, data)[language];
      TranslationsOfLast(init, path, data, language);
      var k :| && 0 <= k < n && Keyed(init[k], path, language)
               && TranslationsOf(init, path, data)[language] == data(init[k])
               && forall j :: k < j < n ==> !Keyed(init[j], path, language);
      assert init[k] == results[k];
      forall j | k < j < |results| ensures !Keyed(results[j], path, language) {
        if j < n {
          assert init[j] == results[j];
        }
      }
    }
  }

  /**
    Each category lists one article per English path, in order of first appearance: the paths
    whose first result gives that category, every one of them, none twice.
  */
  lemma ArticlesInPaths(results: seq<StatusResult>, site: Site, c: string)
    ensures Map(ArticlesIn(results, site, c), (a: Article) => a.englishPath) == Filter(PathOrder(results), InCategory(results, c))
    ensures Distinct(Filter(PathOrder(results), InCategory(results, c)))
    ensures forall k :: 0 <= k < |results| && CategoryNameOf(results, results[k].englishPath) == Some(c) ==>
      results[k].englishPath in Filter(PathOrder(results), InCategory(results, c))
  {
    var order := PathOrder(results);
    var f := Filter(order, InCategory(results, c));
    assert forall k :: 0 <= k < |f| ==> Map(ArticlesIn(results, site, c), (a: Article) => a.englishPath)[k] == f[k];
    FilterDistinct(order, InCategory(results, c));
    forall k | 0 <= k < |results| && CategoryNameOf(results, results[k].englishPath) == Some(c)
      ensures results[k].englishPath in Filter(order, InCategory(results, c))
    {
      assert Map(results, PathOf())[k] == results[k].englishPath;
    }
  }

  /** An article of a category is the article of a path whose first result has that category. */
  lemma ArticleOfCategory(results: seq<StatusResult>, site: Site, c: string, a: Article)
    requires a in ArticlesIn(results, site, c)
    ensures a == ArticleOf(results, site, a.englishPath)
    ensures exists k :: && 0 <= k < |results| && results[k].englishPath == a.englishPath
                        && BuildCategoryName(results[k].category, a.englishPath) == c
                        && forall j :: 0 <= j < k ==> results[j].englishPath != a.englishPath
  {
    var f := Filter(PathOrder(results), InCategory(results, c));
    var i :| 0 <= i < |f| && ArticlesIn(results, site, c)[i] == a;
    assert a == ArticleOf(results, site, f[i]);
    FirstCategoryIsFirst(results, a.englishPath);
  }

  /** The blog is newest first, holds the same articles, and keeps the order of articles of the same date. */
  lemma SortBlogMeaning(articles: seq<Article>)
    ensures Sorted(SortBlog(articles), NewestFirst())
    ensures forall i, j :: 0 <= i < j < |SortBlog(articles)| ==>
      LexLe(ExtractBlogDate(SortBlog(articles)[j].englishPath), ExtractBlogDate(SortBlog(articles)[i].englishPath))
    ensures multiset(SortBlog(articles)) == multiset(articles)
    ensures forall y :: Filter(SortBlog(articles), EquivalentTo(NewestFirst(), y)) == Filter(articles, EquivalentTo(NewestFirst(), y))
  {
    ByStringKeyTotal(BlogDateKey(), true);
    SortSorted(articles, NewestFirst());
    forall y ensures Filter(SortBlog(articles), EquivalentTo(NewestFirst(), y)) == Filter(articles, EquivalentTo(NewestFirst(), y)) {
      SortStable(articles, NewestFirst(), y);
    }
  }

  // ---------------------------------------------------------------- process_translation_results

  function LowerKey(): ((string, StatusResult)) -> string {
    (item: (string, StatusResult)) => Lower(item.0)
  }

  /** `sorted(results.items(), key=lambda item: item[0].lower())`. */
  function ByLowerKey(): ((string, StatusResult), (string, StatusResult)) -> bool {
    ByStringKey(LowerKey(), false)
  }

  function Processable(): ((string, StatusResult)) -> bool {
    (item: (string, StatusResult)) => ShouldProcess(item.1)
  }

  /** The results an export works on: ordered by lowercased target path, those to process only. */
  function ProcessedResults(items: seq<(string, StatusResult)>): seq<(string, StatusResult)> {
    Filter(Sort(items, ByLowerKey()), Processable())
  }

  function ResultOf(): ((string, StatusResult)) -> StatusResult {
    (item: (string, StatusResult)) => item.1
  }

  /**
    The exported results are the ones to process, all of them, ordered by lowercased target
    path (stably), which is the same as sorting what is left after the filter.
  */
  lemma ProcessedResultsMeaning(items: seq<(string, StatusResult)>)
    ensures ProcessedResults(items) == Sort(Filter(items, Processable()), ByLowerKey())
    ensures Sorted(ProcessedResults(items), ByLowerKey())
    ensures multiset(ProcessedResults(items)) == multiset(Filter(items, Processable()))
    ensures forall k :: 0 <= k < |ProcessedResults(items)| ==> ShouldProcess(ProcessedResults(items)[k].1)
  {
    ByStringKeyTotal(LowerKey(), false);
    FilterSort(items, ByLowerKey(), Processable());
    SortSorted(Filter(items, Processable()), ByLowerKey());
  }

  /**
    `process_translation_results` up to the files: the matrix of the processed results, in
    their order. No result that fails `should_process` reaches it.
  */
  method ProcessTranslationResults(items: seq<(string, StatusResult)>, site: Site) returns (matrix: map<string, seq<Article>>)
    ensures matrix.Keys == CategoryNames(Map(ProcessedResults(items), ResultOf()), PathOrder(Map(ProcessedResults(items), ResultOf())))
    ensures forall c :: GetArticles(matrix, c) == CategoryArticles(Map(ProcessedResults(items), ResultOf()), site, c)
  {
    var processed := ProcessedResults(items);
    matrix := CreateMatrixData(Map(processed, ResultOf()), site);
  }

  /** Some result is processed iff some item passes `should_process`. */
  lemma ProcessedNonEmpty(items: seq<(string, StatusResult)>)
    ensures ProcessedResults(items) != [] <==> exists k :: 0 <= k < |items| && ShouldProcess(items[k].1)
  {
    if ProcessedResults(items) != [] {
      ProcessedFromItems(items, 0);
    }
    if exists k :: 0 <= k < |items| && ShouldProcess(items[k].1) {
      var k :| 0 <= k < |items| && ShouldProcess(items[k].1);
      ProcessedResultsMeaning(items);
      assert Processable()(items[k]);
      assert items[k] in multiset(Filter(items, Processable()));
    }
  }

  /**
    `process_translation_results` as written: the export raises `TypeError` exactly when some
    result passes `should_process`; otherwise it writes the empty matrix.
  */
  method ProcessTranslationResultsAsWritten(items: seq<(string, StatusResult)>, site: Site) returns (r: Result<map<string, seq<Article>>, string>)
    ensures r.Failure? <==> exists k :: 0 <= k < |items| && ShouldProcess(items[k].1)
    ensures r.Failure? ==> r.error == UnexpectedKeyword
    ensures r.Success? ==> r.value == map[]
  {
    ProcessedNonEmpty(items);
    var processed := ProcessedResults(items);
    r := CreateMatrixDataAsWritten(Map(processed, ResultOf()), site);
  }

  /** Every article of an export is the page of some result that passes `should_process`. */
  lemma ExportedArticlesProcessed(items: seq<(string, StatusResult)>, site: Site, c: string, a: Article)
    requires a in ArticlesIn(Map(ProcessedResults(items), ResultOf()), site, c)
    ensures exists k :: 0 <= k < |items| && items[k].1.englishPath == a.englishPath && ShouldProcess(items[k].1)
  {
    var results := Map(ProcessedResults(items), ResultOf());
    ArticleOfCategory(results, site, c, a);
    var k :| 0 <= k < |results| && results[k].englishPath == a.englishPath
      && BuildCategoryName(results[k].category, a.englishPath) == c
      && forall j :: 0 <= j < k ==> results[j].englishPath != a.englishPath;
    ProcessedFromItems(items, k);
  }

  /** Each processed result is one of the items, and one to process. */
  lemma ProcessedFromItems(items: seq<(string, StatusResult)>, k: nat)
    requires k < |ProcessedResults(items)|
    ensures exists i :: 0 <= i < |items| && items[i] == ProcessedResults(items)[k] && ShouldProcess(items[i].1)
  {
    ProcessedResultsMeaning(items);
    var item := ProcessedResults(items)[k];
    assert item in multiset(Filter(items, Processable()));
    assert item in Filter(items, Processable());
    var i :| 0 <= i < |items| && items[i] == item;
  }
}

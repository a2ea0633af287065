/**
  The records of web/src/features/translations.ts: translation status and severity, the
  per-language translation record, the article, the (older) language catalog and the
  article categories.
*/
module Translations {
  import opened Wrappers
  import opened Seqs

  /**
    `TranslationStatus`. The declared union has three values; `Unrecognised` holds any other
    text the data carries (the status cells fall back to "Unknown" for it). A status is read
    with `ParseStatus`, which gives `Unrecognised` only for text that is not a declared name.
  */
  datatype Status = UpToDate | Outdated | NotTranslated | Unrecognised(raw: string)

  const DeclaredStatuses: seq<Status> := [UpToDate, Outdated, NotTranslated]

  predicate Declared(s: Status) {
    !s.Unrecognised?
  }

  /** The status as it is written in the data. */
  function StatusName(s: Status): string {
    match s
    case UpToDate => "up_to_date"
    case Outdated => "outdated"
    case NotTranslated => "not_translated"
    case Unrecognised(raw) => raw
  }

  const DeclaredNames: set<string> := {"up_to_date", "outdated", "not_translated"}

  /** Reading a status value from the data (or from the status select). */
  function ParseStatus(raw: string): (s: Status)
    ensures StatusName(s) == raw
    ensures s.Unrecognised? <==> raw !in DeclaredNames
  {
    if raw == "up_to_date" then UpToDate
    else if raw == "outdated" then Outdated
    else if raw == "not_translated" then NotTranslated
    else Unrecognised(raw)
  }

  /** Printing a status and reading it back gives the same status, for every status `ParseStatus` can give. */
  lemma ParseStatusRoundTrip(s: Status)
    requires s.Unrecognised? ==> s.raw !in DeclaredNames
    ensures ParseStatus(StatusName(s)) == s
  {
  }

  lemma DeclaredStatusesExact(s: Status)
    ensures Declared(s) <==> s in DeclaredStatuses
    ensures Distinct(DeclaredStatuses) && |DeclaredStatuses| == 3
  {
  }

  datatype Severity = Current | Minor | Moderate | Significant | Critical

  const Severities: seq<Severity> := [Current, Minor, Moderate, Significant, Critical]

  lemma SeveritiesExact(v: Severity)
    ensures v in Severities
    ensures Distinct(Severities) && |Severities| == 5
  {
  }

  /** A pull request listed in a cell (the ui variant of the record carries `prs`). */
  datatype PrRef = PrRef(number: int, title: string, url: string)

  /**
    `TranslationInfo`. `englishLatestDate` is the source's date string already read as a
    timestamp (`new Date(...).getTime()`); `targetLatestDate` and `translationUrl` are nullable.
    The analytics fields are present only on the `en` record and may be missing (`None`).
  */
  datatype TranslationInfo = TranslationInfo(
    status: Status,
    severity: Severity,
    daysBehind: int,
    commitsBehind: int,
    totalChangeLines: int,
    targetLatestDate: Option<string>,
    englishLatestDate: int,
    translationUrl: Option<string>,
    views: Option<int>,
    newUsers: Option<int>,
    averageSessionDuration: Option<int>,
    prs: seq<PrRef>)

  /** `ArticleTranslation`: `translations` may lack keys at run time, so it is a map. */
  datatype Article = Article(
    englishPath: string,
    englishUrl: Option<string>,
    translations: map<string, TranslationInfo>)

  datatype LangEntry = LangEntry(value: string, name: string)

  function Codes(entries: seq<LangEntry>): (r: seq<string>)
    ensures |r| == |entries|
    ensures forall k :: 0 <= k < |entries| ==> r[k] == entries[k].value
  {
    seq(|entries|, k requires 0 <= k < |entries| => entries[k].value)
  }

  /** The catalog of this file (used by the older preferred-language menu). */
  const TranslationsCatalog: seq<LangEntry> := [
    LangEntry("en", "English"),
    LangEntry("ja", "Japanese"),
    LangEntry("zh-cn", "Chinese"),
    LangEntry("bn", "Bengali"),
    LangEntry("de", "German"),
    LangEntry("es", "Spanish"),
    LangEntry("fr", "French"),
    LangEntry("hi", "Hindi"),
    LangEntry("id", "Indonesian"),
    LangEntry("it", "Italian"),
    LangEntry("ko", "Korean"),
    LangEntry("pl", "Polish"),
    LangEntry("pt-br", "Portuguese (Brazil)"),
    LangEntry("ru", "Russian"),
    LangEntry("uk", "Ukrainian"),
    LangEntry("vi", "Vietnamese")
  ]

  /** A number that tells apart the short identifiers of this model (length, two first and last character). */
  function CodeKey(c: string): int {
    if |c| < 2 then 0 else ((|c| * 256 + c[0] as int) * 256 + c[1] as int) * 256 + c[|c| - 1] as int
  }

  /** The codes of `entries` are pairwise different. */
  predicate DistinctCodes(entries: seq<LangEntry>) {
    forall i, j :: 0 <= i < j < |entries| ==> entries[i].value != entries[j].value
  }

  lemma {:induction false} FilterDistinctCodes(entries: seq<LangEntry>, p: LangEntry -> bool)
    requires DistinctCodes(entries)
    ensures DistinctCodes(Filter(entries, p))
    decreases |entries|
  {
    if entries != [] {
      var tail := entries[1..];
      assert DistinctCodes(tail);
      FilterDistinctCodes(tail, p);
      if p(entries[0]) {
        var f := Filter(tail, p);
        forall k | 0 <= k < |f| ensures f[k].value != entries[0].value {
          var m :| 0 <= m < |tail| && tail[m] == f[k];
          assert tail[m] == entries[m + 1];
        }
      }
    }
  }

  lemma TranslationsCatalogShape()
    ensures |TranslationsCatalog| == 16 && TranslationsCatalog[0].value == "en"
    ensures DistinctCodes(TranslationsCatalog)
  {
    var keys := [40201838, 40526177, 91908206, 40005230, 40133989, 40203123, 40268402, 40397161, 40461412, 40465524, 40595311, 40922220, 91255922, 41055605, 41249643, 41314665];
    assert CodeKey(TranslationsCatalog[0].value) == keys[0];
    assert CodeKey(TranslationsCatalog[1].value) == keys[1];
    assert CodeKey(TranslationsCatalog[2].value) == keys[2];
    assert CodeKey(TranslationsCatalog[3].value) == keys[3];
    assert CodeKey(TranslationsCatalog[4].value) == keys[4];
    assert CodeKey(TranslationsCatalog[5].value) == keys[5];
    assert CodeKey(TranslationsCatalog[6].value) == keys[6];
    assert CodeKey(TranslationsCatalog[7].value) == keys[7];
    assert CodeKey(TranslationsCatalog[8].value) == keys[8];
    assert CodeKey(TranslationsCatalog[9].value) == keys[9];
    assert CodeKey(TranslationsCatalog[10].value) == keys[10];
    assert CodeKey(TranslationsCatalog[11].value) == keys[11];
    assert CodeKey(TranslationsCatalog[12].value) == keys[12];
    assert CodeKey(TranslationsCatalog[13].value) == keys[13];
    assert CodeKey(TranslationsCatalog[14].value) == keys[14];
    assert CodeKey(TranslationsCatalog[15].value) == keys[15];
    forall i, j | 0 <= i < j < |TranslationsCatalog| ensures TranslationsCatalog[i].value != TranslationsCatalog[j].value {
      assert keys[i] != keys[j];
    }
  }

  const ArticleCategories: seq<LangEntry> := [
    LangEntry("docsConcept", "Docs / Concept"),
    LangEntry("docsTask", "Docs / Task"),
    LangEntry("docsSetup", "Docs / Setup"),
    LangEntry("docsReference", "Docs / Reference"),
    LangEntry("docsTutorial", "Docs / Tutorial"),
    LangEntry("docsContribute", "Docs / Contribution"),
    LangEntry("blog", "Blog"),
    LangEntry("community", "Community"),
    LangEntry("caseStudy", "Case Study"),
    LangEntry("examples", "Examples"),
    LangEntry("includes", "Includes"),
    LangEntry("release", "Release"),
    LangEntry("partner", "Partner"),
    LangEntry("training", "Training")
  ]

  lemma ArticleCategoriesShape()
    ensures |ArticleCategories| == 14 && DistinctCodes(ArticleCategories)
  {
    var keys := [191131508, 140799851, 157577072, 224685925, 207908716, 241463141, 73559143, 157511545, 157507961, 140867699, 141127283, 124937573, 124805490, 141849191];
    assert CodeKey(ArticleCategories[0].value) == keys[0];
    assert CodeKey(ArticleCategories[1].value) == keys[1];
    assert CodeKey(ArticleCategories[2].value) == keys[2];
    assert CodeKey(ArticleCategories[3].value) == keys[3];
    assert CodeKey(ArticleCategories[4].value) == keys[4];
    assert CodeKey(ArticleCategories[5].value) == keys[5];
    assert CodeKey(ArticleCategories[6].value) == keys[6];
    assert CodeKey(ArticleCategories[7].value) == keys[7];
    assert CodeKey(ArticleCategories[8].value) == keys[8];
    assert CodeKey(ArticleCategories[9].value) == keys[9];
    assert CodeKey(ArticleCategories[10].value) == keys[10];
    assert CodeKey(ArticleCategories[11].value) == keys[11];
    assert CodeKey(ArticleCategories[12].value) == keys[12];
    assert CodeKey(ArticleCategories[13].value) == keys[13];
    forall i, j | 0 <= i < j < |ArticleCategories| ensures ArticleCategories[i].value != ArticleCategories[j].value {
      assert keys[i] != keys[j];
    }
  }
}

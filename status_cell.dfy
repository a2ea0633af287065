/**
  The status badge and the per-language table cell (web/src/features/TranslationStatusCell.tsx,
  ui/src/features/TranslationStatusCell.tsx and ui/src/features/StatusBadge.tsx). A cell is
  described by what it shows: its tint, the badge, the GitHub edit link, the detail lines and,
  in the ui variant, the pull-request line. Number formatting (`toLocaleString`) and date
  formatting (`formatDateISO`) are left to the renderer: the cell carries the raw values.
*/
module StatusCell {
  import opened Wrappers
  import opened Strings
  import opened Translations

  /** What `getStatusConfig` returns: the emoji shown and the label, rendered as its title. */
  datatype StatusConfig = StatusConfig(emoji: string, title: string)

  const UnknownConfig: StatusConfig := StatusConfig("-", "Unknown")

  /** `getStatusConfig` (the same switch in both `StatusBadge` components); total, with a fallback. */
  function GetStatusConfig(s: Status): (r: StatusConfig)
    ensures r == UnknownConfig <==> !Declared(s)
  {
    match s
    case UpToDate => StatusConfig("\U{2705}", "Up to date")
    case Outdated => StatusConfig("\U{26A0}\U{FE0F}", "Outdated")
    case NotTranslated => StatusConfig("\U{2014}", "Not translated")
    case Unrecognised(_) => UnknownConfig
  }

  /** The three declared statuses are told apart by both their emoji and their label. */
  lemma StatusConfigsDistinct(a: Status, b: Status)
    requires Declared(a) && Declared(b) && a != b
    ensures GetStatusConfig(a).emoji != GetStatusConfig(b).emoji
    ensures GetStatusConfig(a).title != GetStatusConfig(b).title
  {
  }

  const UpToDateTint: string := "rgba(34, 139, 34, 0.05)"
  const OutdatedTint: string := "rgba(255, 165, 0, 0.1)"

  /** `bgColor`. */
  function Background(s: Status): (r: string)
    ensures r != "" <==> s == UpToDate || s == Outdated
    ensures r == UpToDateTint <==> s == UpToDate
  {
    if s == UpToDate then UpToDateTint else if s == Outdated then OutdatedTint else ""
  }

  /** `englishPath.replace('/en/', `/${langCode}/`)`: only the first `/en/` is replaced. */
  function TranslationPath(englishPath: string, lang: string): string {
    ReplaceFirst(englishPath, "/en/", "/" + lang + "/")
  }

  /** The first `/en/` becomes `/<lang>/`; the text around it is kept. */
  lemma TranslationPathAt(a: string, b: string, lang: string)
    requires forall j :: 0 <= j < |a| ==> !StartsWith((a + "/en/")[j..], "/en/")
    ensures TranslationPath(a + "/en/" + b, lang) == a + "/" + lang + "/" + b
  {
    ReplaceFirstAt(a, "/en/", b, "/" + lang + "/");
  }

  /** A path without `/en/` is used as it is. */
  lemma TranslationPathAbsent(englishPath: string, lang: string)
    requires !Contains(englishPath, "/en/")
    ensures TranslationPath(englishPath, lang) == englishPath
  {
    ReplaceFirstAbsent(englishPath, "/en/", "/" + lang + "/");
  }

  /** For English itself the path is the English path. */
  lemma TranslationPathEnglish(englishPath: string)
    ensures TranslationPath(englishPath, "en") == englishPath
  {
    assert "/" + "en" + "/" == "/en/";
    ReplaceFirstSame(englishPath, "/en/");
  }

  const GithubBlob: string := "https://github.com/kubernetes/website/blob/main/"

  datatype GithubLink = GithubLink(href: string, title: string)

  /**
    The "N commit(s) / M day(s) behind" slot. `StrayZero` is what React renders for
    `status === 'outdated' && daysBehind && ...` when `daysBehind` is 0: the number itself.
  */
  datatype BehindSlot = NoBehind | StrayZero | BehindLine(commits: int, commitUnit: string, days: int, dayUnit: string)

  /** "commit" takes an "s" only above one. */
  function CommitUnit(commits: int): (r: string)
    ensures r == "commits" <==> commits > 1
    ensures r == "commit" || r == "commits"
  {
    if commits > 1 then "commits" else "commit"
  }

  /** "day" takes an "s" for every count but one. */
  function DayUnit(days: int): (r: string)
    ensures r == "day" <==> days == 1
    ensures r == "day" || r == "days"
  {
    if days != 1 then "days" else "day"
  }

  /** The slot as written: `status === 'outdated' && daysBehind && (...)`. */
  function BehindAsWritten(info: TranslationInfo): BehindSlot {
    if info.status != Outdated then NoBehind
    else if info.daysBehind == 0 then StrayZero
    else BehindLine(info.commitsBehind, CommitUnit(info.commitsBehind), info.daysBehind, DayUnit(info.daysBehind))
  }

  /** The slot as intended: the line, or nothing at all. */
  function Behind(info: TranslationInfo): (r: BehindSlot)
    ensures !r.StrayZero?
    ensures r.BehindLine? <==> info.status == Outdated && info.daysBehind != 0
    ensures r.BehindLine? ==> r.commits == info.commitsBehind && r.days == info.daysBehind
  {
    if info.status == Outdated && info.daysBehind != 0 then
      BehindLine(info.commitsBehind, CommitUnit(info.commitsBehind), info.daysBehind, DayUnit(info.daysBehind))
    else NoBehind
  }

  /** The written guard leaks a "0" exactly for an outdated record with zero days behind. */
  lemma BehindAsWrittenStrayZero(info: TranslationInfo)
    ensures BehindAsWritten(info) == StrayZero <==> info.status == Outdated && info.daysBehind == 0
    ensures BehindAsWritten(info) != StrayZero ==> BehindAsWritten(info) == Behind(info)
  {
  }

  /** An outdated record from the data with the translation updated today. */
  lemma StrayZeroExample()
    ensures BehindAsWritten(TranslationInfo(Outdated, Minor, 0, 3, 12, None, 0, None, None, None, None, [])) == StrayZero
  {
  }

  /** The "Updated at" slot with the optional documentation link. */
  datatype UpdatedAt = UpdatedAt(date: string, docsLink: Option<string>)

  /** JavaScript truthiness of a nullable string. */
  predicate Truthy(o: Option<string>) {
    o.Some? && o.value != ""
  }

  function NonEmpty(o: Option<string>): (r: Option<string>)
    ensures r.Some? <==> Truthy(o)
    ensures r.Some? ==> r == o
  {
    if Truthy(o) then o else None
  }

  datatype PrLink = PrLink(number: int, tooltip: string, href: string)

  function PrLinkOf(pr: PrRef): PrLink {
    PrLink(pr.number, "PR #" + IntToString(pr.number) + " - " + pr.title, pr.url)
  }

  /** `prs.map(...)` in the ui cell: one link per pull request, in order. */
  function PrLinks(prs: seq<PrRef>): (r: seq<PrLink>)
    ensures |r| == |prs|
    ensures forall k :: 0 <= k < |prs| ==> r[k].number == prs[k].number && r[k].href == prs[k].url
  {
    seq(|prs|, k requires 0 <= k < |prs| => PrLinkOf(prs[k]))
  }

  /** The web table renders no pull requests; the ui table does. */
  datatype Variant = Web | Ui

  datatype Cell = Cell(
    background: string,
    badge: StatusConfig,
    link: Option<GithubLink>,
    linesChanged: Option<int>,
    behind: BehindSlot,
    updated: Option<UpdatedAt>,
    prLine: Option<seq<PrLink>>)

  /**
    `TranslationStatusCell` for `article` and `lang`, with the given "behind" slot. The component
    destructures `article.translations[langCode]`, so the record must exist.
  */
  function CellWith(article: Article, lang: string, variant: Variant, behind: BehindSlot): Cell
    requires lang in article.translations
  {
    var info := article.translations[lang];
    var status := info.status;
    Cell(
      Background(status),
      GetStatusConfig(status),
      if status != NotTranslated then
        Some(GithubLink(GithubBlob + TranslationPath(article.englishPath, lang), "Edit " + lang + " translation on GitHub"))
      else None,
      if info.totalChangeLines > 0 && status == Outdated then Some(info.totalChangeLines) else None,
      behind,
      if (status == Outdated || status == UpToDate) && Truthy(info.targetLatestDate) then
        Some(UpdatedAt(info.targetLatestDate.value, NonEmpty(info.translationUrl)))
      else None,
      if variant == Ui && |info.prs| > 0 then Some(PrLinks(info.prs)) else None)
  }

  /** The cell as intended: the "behind" line or nothing. */
  function CellOf(article: Article, lang: string, variant: Variant): Cell
    requires lang in article.translations
  {
    CellWith(article, lang, variant, Behind(article.translations[lang]))
  }

  /** The cell as written, with its `daysBehind &&` guard. */
  function CellOfAsWritten(article: Article, lang: string, variant: Variant): Cell
    requires lang in article.translations
  {
    CellWith(article, lang, variant, BehindAsWritten(article.translations[lang]))
  }

  const MissingRecord := "TypeError: cannot destructure an undefined translation record"

  /**
    Rendering the cell of a column: the component destructures `article.translations[langCode]`
    without a guard, so an article with no record for the column throws; otherwise the cell is
    the one drawn as written.
  */
  function RenderCell(article: Article, lang: string, variant: Variant): (r: Result<Cell, string>)
    ensures r.Failure? <==> lang !in article.translations
    ensures r.Failure? ==> r.error == MissingRecord
    ensures r.Success? ==> r.value.badge == GetStatusConfig(article.translations[lang].status)
    ensures r.Success? ==> r.value.behind == BehindAsWritten(article.translations[lang])
  {
    if lang !in article.translations then Failure(MissingRecord)
    else Success(CellOfAsWritten(article, lang, variant))
  }

  /**
    The written cell is the intended one except for an outdated record with zero days behind,
    where it differs only by the stray "0".
  */
  lemma CellOfAsWrittenDiffers(article: Article, lang: string, variant: Variant)
    requires lang in article.translations
    ensures var info := article.translations[lang];
      CellOfAsWritten(article, lang, variant) != CellOf(article, lang, variant) <==>
      info.status == Outdated && info.daysBehind == 0
    ensures CellOfAsWritten(article, lang, variant) == CellOf(article, lang, variant).(behind := BehindAsWritten(article.translations[lang]))
  {
    BehindAsWrittenStrayZero(article.translations[lang]);
  }

  /** The edit link is there exactly when the badge is not "Not translated", and it points at the translated file. */
  lemma LinkUnlessNotTranslated(article: Article, lang: string, variant: Variant)
    requires lang in article.translations
    ensures var c := CellOf(article, lang, variant);
      && (c.link.Some? <==> c.badge.title != "Not translated")
      && (c.link.Some? ==> c.link.value.href == GithubBlob + TranslationPath(article.englishPath, lang))
  {
  }

  /** Change counts appear only in an outdated cell, under its orange tint. */
  lemma DetailsOnlyWhenOutdated(article: Article, lang: string, variant: Variant)
    requires lang in article.translations
    ensures var c := CellOf(article, lang, variant);
      (c.linesChanged.Some? || !c.behind.NoBehind?) ==> c.badge.title == "Outdated" && c.background == OutdatedTint
    ensures var c := CellOf(article, lang, variant);
      c.linesChanged.Some? ==> c.linesChanged.value > 0
  {
  }

  /**
    The commits/days line of a cell: the record's counts, "commits" exactly above one commit
    and "day" exactly at one day, the singular and plural being the only words used.
  */
  lemma BehindLineWording(article: Article, lang: string, variant: Variant)
    requires lang in article.translations
    ensures var c := CellOf(article, lang, variant); var info := article.translations[lang];
      c.behind.BehindLine? ==>
        && c.behind.commits == info.commitsBehind && c.behind.days == info.daysBehind
        && (c.behind.commitUnit == "commits" <==> info.commitsBehind > 1)
        && (c.behind.commitUnit == "commit" <==> info.commitsBehind <= 1)
        && (c.behind.dayUnit == "day" <==> info.daysBehind == 1)
        && (c.behind.dayUnit == "days" <==> info.daysBehind != 1)
  {
  }

  /** The link beside "Updated at" is the record's translated URL, shown exactly when that URL is truthy. */
  lemma UpdatedDocsLink(article: Article, lang: string, variant: Variant)
    requires lang in article.translations
    ensures var c := CellOf(article, lang, variant); var url := article.translations[lang].translationUrl;
      c.updated.Some? ==>
        && (c.updated.value.docsLink.Some? <==> url.Some? && url.value != "")
        && (c.updated.value.docsLink.Some? ==> c.updated.value.docsLink == url)
  {
  }

  /** "Updated at" appears only in a tinted cell, and only with a date to show. */
  lemma UpdatedOnlyWhenTinted(article: Article, lang: string, variant: Variant)
    requires lang in article.translations
    ensures var c := CellOf(article, lang, variant);
      c.updated.Some? ==> c.background != "" && c.updated.value.date != ""
    ensures var c := CellOf(article, lang, variant);
      c.updated.Some? ==> Some(c.updated.value.date) == article.translations[lang].targetLatestDate
  {
  }

  /** A not-translated cell shows the bare badge (and, in the ui table, its pull requests). */
  lemma NotTranslatedShowsBadgeOnly(article: Article, lang: string, variant: Variant)
    requires lang in article.translations && article.translations[lang].status == NotTranslated
    ensures var c := CellOf(article, lang, variant);
      c == Cell("", StatusConfig("\U{2014}", "Not translated"), None, None, NoBehind, None, c.prLine)
  {
  }

  /** The two tables agree on every slot but the pull-request line, which only the ui table has. */
  lemma VariantsAgree(article: Article, lang: string)
    requires lang in article.translations
    ensures CellOf(article, lang, Web).prLine == None
    ensures CellOf(article, lang, Web) == CellOf(article, lang, Ui).(prLine := None)
  {
  }

  /** The ui pull-request line is shown iff there are pull requests and lists every number in order. */
  lemma PrLineListsEveryPr(article: Article, lang: string)
    requires lang in article.translations
    ensures var c := CellOf(article, lang, Ui); var prs := article.translations[lang].prs;
      && (c.prLine.Some? <==> |prs| > 0)
      && (c.prLine.Some? ==> |c.prLine.value| == |prs|)
      && (c.prLine.Some? ==> forall k :: 0 <= k < |prs| ==> c.prLine.value[k].number == prs[k].number)
  {
  }
}

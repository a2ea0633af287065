/**
  The small-screen view of web/src/features/MobileTranslationStatusMatrix.tsx: the selected
  languages as catalog entries, and for each article a card that sorts them into up-to-date,
  outdated and not-translated groups. Language names (`getLanguageName`) are the catalog
  entries' names here; the function is not defined in the files this model follows.
*/
module MobileMatrix {
  import opened Wrappers
  import opened Strings
  import opened Seqs
  import opened Translations
  import opened LanguageCodes
  import opened StatusCell

  /** `selectedLanguages.includes(code.value)`. */
  function SelectedBy(selected: seq<string>): LangEntry -> bool {
    (l: LangEntry) => l.value in selected
  }

  /** `sortedLangCodes`: the catalog entries that are selected, in catalog order. */
  function Columns(selected: seq<string>): seq<LangEntry> {
    Filter(Catalog, SelectedBy(selected))
  }

  /** The columns keep catalog order (not selection order) and are exactly the selected catalog entries. */
  lemma ColumnsInCatalogOrder(selected: seq<string>)
    ensures SubsequenceOf(Columns(selected), Catalog)
    ensures forall l :: l in Columns(selected) <==> l in Catalog && l.value in selected
  {
    FilterIsSubsequence(Catalog, SelectedBy(selected));
    var cols := Columns(selected);
    forall l ensures l in cols <==> l in Catalog && l.value in selected {
      if l in cols {
        var k :| 0 <= k < |cols| && cols[k] == l;
        assert SelectedBy(selected)(cols[k]);
      }
      if l in Catalog && l.value in selected {
        var k :| 0 <= k < |Catalog| && Catalog[k] == l;
        assert SelectedBy(selected)(Catalog[k]);
      }
    }
  }

  datatype Group = UpToDateGroup | OutdatedGroup | NotTranslatedGroup

  /** The filter of each group: never English; a language without a record is not translated. */
  predicate InGroup(t: map<string, TranslationInfo>, g: Group, l: LangEntry) {
    && l.value != "en"
    && match g
       case UpToDateGroup => l.value in t && t[l.value].status == UpToDate
       case OutdatedGroup => l.value in t && t[l.value].status == Outdated
       case NotTranslatedGroup => l.value !in t || t[l.value].status == NotTranslated
  }

  function Member(t: map<string, TranslationInfo>, g: Group): LangEntry -> bool {
    (l: LangEntry) => InGroup(t, g, l)
  }

  /** `upToDateLangs`, `outdatedLangs`, `notTranslatedLangs`. */
  function GroupOf(t: map<string, TranslationInfo>, cols: seq<LangEntry>, g: Group): (r: seq<LangEntry>)
    ensures SubsequenceOf(r, cols)
    ensures forall l :: l in r <==> l in cols && InGroup(t, g, l)
  {
    FilterIsSubsequence(cols, Member(t, g));
    var r := Filter(cols, Member(t, g));
    forall l ensures l in r <==> l in cols && InGroup(t, g, l) {
      if l in r {
        var k :| 0 <= k < |r| && r[k] == l;
        assert Member(t, g)(r[k]);
      }
      if l in cols && InGroup(t, g, l) {
        var k :| 0 <= k < |cols| && cols[k] == l;
        assert Member(t, g)(cols[k]);
      }
    }
    r
  }

  /** No language is in two groups. */
  lemma GroupsDisjoint(t: map<string, TranslationInfo>, cols: seq<LangEntry>, g: Group, h: Group, l: LangEntry)
    requires g != h
    ensures !(l in GroupOf(t, cols, g) && l in GroupOf(t, cols, h))
  {
  }

  /** A selected language without a record is listed as not translated. */
  lemma MissingRecordNotTranslated(t: map<string, TranslationInfo>, cols: seq<LangEntry>, l: LangEntry)
    requires l in cols && l.value != "en" && l.value !in t
    ensures l in GroupOf(t, cols, NotTranslatedGroup)
  {
  }

  /** The partition, counted for one entry. */
  lemma PartitionCount(t: map<string, TranslationInfo>, cols: seq<LangEntry>, x: LangEntry)
    requires x.value in t ==> Declared(t[x.value].status)
    ensures multiset(Filter(cols, Member(t, UpToDateGroup)))[x] + multiset(Filter(cols, Member(t, OutdatedGroup)))[x]
      + multiset(Filter(cols, Member(t, NotTranslatedGroup)))[x] == multiset(Filter(cols, NotEnglishEntry()))[x]
  {
    FilterCount(cols, Member(t, UpToDateGroup), x);
    FilterCount(cols, Member(t, OutdatedGroup), x);
    FilterCount(cols, Member(t, NotTranslatedGroup), x);
    FilterCount(cols, NotEnglishEntry(), x);
    if x !in cols {
      assert multiset(cols)[x] == 0;
    }
  }

  /**
    When every record of the article carries a declared status, the three groups together hold every column
    other than English exactly as often as the columns do.
  */
  lemma GroupsPartition(t: map<string, TranslationInfo>, cols: seq<LangEntry>)
    requires forall c :: c in t ==> Declared(t[c].status)
    ensures multiset(GroupOf(t, cols, UpToDateGroup)) + multiset(GroupOf(t, cols, OutdatedGroup))
      + multiset(GroupOf(t, cols, NotTranslatedGroup)) == multiset(Filter(cols, NotEnglishEntry()))
  {
    var up := multiset(Filter(cols, Member(t, UpToDateGroup)));
    var out := multiset(Filter(cols, Member(t, OutdatedGroup)));
    var not := multiset(Filter(cols, Member(t, NotTranslatedGroup)));
    forall x ensures (up + out + not)[x] == multiset(Filter(cols, NotEnglishEntry()))[x] {
      PartitionCount(t, cols, x);
    }
    assert up + out + not == multiset(Filter(cols, NotEnglishEntry()));
  }

  /** `translation?.x`: the record of a language, if there is one. */
  function RecordOf(t: map<string, TranslationInfo>, code: string): Option<TranslationInfo> {
    if code in t then Some(t[code]) else None
  }

  /** `translation?.targetLatestDate ? formatDateISO(...) : ''` (date formatting left out). */
  function UpdatedText(o: Option<TranslationInfo>): string {
    if o.Some? && Truthy(o.value.targetLatestDate) then o.value.targetLatestDate.value else ""
  }

  function DocsLink(o: Option<TranslationInfo>): Option<string> {
    if o.Some? then NonEmpty(o.value.translationUrl) else None
  }

  const Bullet: string := " \U{2022} "

  /**
    The outdated detail items before `.filter(Boolean)`: the line count when it is not 0, the
    commit count when both it and the day count are not 0, the day count when it is not 0.
  */
  function DetailItems(o: Option<TranslationInfo>): seq<string> {
    if o.None? then []
    else
      var i := o.value;
      (if i.totalChangeLines != 0 then [IntToString(i.totalChangeLines) + " lines changed"] else [])
      + (if i.commitsBehind != 0 && i.daysBehind != 0 then [IntToString(i.commitsBehind) + " commits"] else [])
      + (if i.daysBehind != 0 then [IntToString(i.daysBehind) + " days behind"] else [])
  }

  /** The detail line under an outdated language: the items joined with " • ". */
  function OutdatedDetail(o: Option<TranslationInfo>): string {
    Join(DetailItems(o), Bullet)
  }

  /**
    The detail line is empty exactly when neither lines nor days are counted; it ends with the
    days when there are some, and without them it is at most the line count.
  */
  lemma OutdatedDetailShape(info: TranslationInfo)
    ensures OutdatedDetail(Some(info)) == "" <==> info.totalChangeLines == 0 && info.daysBehind == 0
    ensures info.daysBehind != 0 ==>
      EndsWith(OutdatedDetail(Some(info)), IntToString(info.daysBehind) + " days behind")
    ensures info.daysBehind == 0 ==>
      OutdatedDetail(Some(info)) == if info.totalChangeLines != 0 then IntToString(info.totalChangeLines) + " lines changed" else ""
  {
    var items := DetailItems(Some(info));
    var days := IntToString(info.daysBehind) + " days behind";
    if info.daysBehind != 0 {
      var front := items[..|items| - 1];
      assert items == front + [days];
      if front == [] {
        assert Join(items, Bullet) == days;
      } else {
        JoinSnoc(front, days, Bullet);
      }
    }
  }

  datatype UpToDateRow = UpToDateRow(lang: LangEntry, href: string, updated: string, docsLink: Option<string>)

  datatype OutdatedRow = OutdatedRow(lang: LangEntry, href: string, updated: string, docsLink: Option<string>, detail: string)

  function EditHref(article: Article, l: LangEntry): string {
    GithubBlob + TranslationPath(article.englishPath, l.value)
  }

  function UpToDateRowOf(article: Article): LangEntry -> UpToDateRow {
    (l: LangEntry) =>
      var o := RecordOf(article.translations, l.value);
      UpToDateRow(l, EditHref(article, l), UpdatedText(o), DocsLink(o))
  }

  function OutdatedRowOf(article: Article): LangEntry -> OutdatedRow {
    (l: LangEntry) =>
      var o := RecordOf(article.translations, l.value);
      OutdatedRow(l, EditHref(article, l), UpdatedText(o), DocsLink(o), OutdatedDetail(o))
  }

  datatype CardBody =
    | SelectPrompt
    | Groups(upToDate: seq<UpToDateRow>, outdated: seq<OutdatedRow>, notTranslated: seq<LangEntry>)

  /** A card also shows the number of columns (`{sortedLangCodes.length}` at its top). */
  datatype Card = Card(englishPath: string, columnCount: nat, body: CardBody)

  datatype MobileView = NoArticles | Cards(cards: seq<Card>)

  function CardOf(cols: seq<LangEntry>): Article -> Card {
    (article: Article) =>
      var t := article.translations;
      Card(article.englishPath, |cols|,
        if |cols| == 1 then SelectPrompt
        else Groups(
          Map(GroupOf(t, cols, UpToDateGroup), UpToDateRowOf(article)),
          Map(GroupOf(t, cols, OutdatedGroup), OutdatedRowOf(article)),
          GroupOf(t, cols, NotTranslatedGroup)))
  }

  /**
    `MobileTranslationStatusMatrix`: "No articles found" for an empty list, else one card per
    article, in order; a card asks for target languages iff there is exactly one column.
  */
  function MobileMatrixView(articles: seq<Article>, selected: seq<string>): (r: MobileView)
    ensures r == NoArticles <==> articles == []
    ensures r.Cards? ==> |r.cards| == |articles|
    ensures r.Cards? ==> forall k :: 0 <= k < |articles| ==>
      r.cards[k].englishPath == articles[k].englishPath
      && (r.cards[k].body == SelectPrompt <==> |Columns(selected)| == 1)
  {
    if articles == [] then NoArticles
    else Cards(Map(articles, CardOf(Columns(selected))))
  }

  /** Each row of a group names its language and links to that language's copy of the article. */
  lemma GroupRowsFollowGroups(article: Article, cols: seq<LangEntry>)
    requires |cols| != 1
    ensures var c := CardOf(cols)(article); var t := article.translations;
      && c.body.Groups?
      && |c.body.upToDate| == |GroupOf(t, cols, UpToDateGroup)|
      && |c.body.outdated| == |GroupOf(t, cols, OutdatedGroup)|
      && (forall k :: 0 <= k < |c.body.outdated| ==> c.body.outdated[k].lang == GroupOf(t, cols, OutdatedGroup)[k])
      && (forall k :: 0 <= k < |c.body.outdated| ==> c.body.outdated[k].href == EditHref(article, c.body.outdated[k].lang))
      && (forall k :: 0 <= k < |c.body.upToDate| ==> c.body.upToDate[k].lang == GroupOf(t, cols, UpToDateGroup)[k])
      && (forall k :: 0 <= k < |c.body.upToDate| ==> c.body.upToDate[k].href == EditHref(article, c.body.upToDate[k].lang))
      && c.body.notTranslated == GroupOf(t, cols, NotTranslatedGroup)
  {
  }
}

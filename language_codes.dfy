/**
  The language catalog of web/src/features/language/languageCodes.ts, the table from browser
  language tags to catalog codes, and the column order `getSortedLangCodes` derives from the
  user's selection: English first, then the selected languages in the order first selected,
  then every other catalog language in catalog order.
*/
module LanguageCodes {
  import opened Wrappers
  import opened Seqs
  import opened Translations

  const Catalog: seq<LangEntry> := [
    LangEntry("en", "English"),
    LangEntry("bn", "Bengali"),
    LangEntry("zh-cn", "Chinese"),
    LangEntry("fr", "French"),
    LangEntry("de", "German"),
    LangEntry("hi", "Hindi"),
    LangEntry("id", "Indonesian"),
    LangEntry("it", "Italian"),
    LangEntry("ja", "Japanese"),
    LangEntry("ko", "Korean"),
    LangEntry("pl", "Polish"),
    LangEntry("pt-br", "Portuguese"),
    LangEntry("ru", "Russian"),
    LangEntry("es", "Spanish"),
    LangEntry("uk", "Ukrainian"),
    LangEntry("vi", "Vietnamese")
  ]

  /** The older catalog of web/src/features/translations.ts lists the same sixteen codes in another order. */
  lemma CatalogsSameCodes()
    ensures multiset(Codes(Catalog)) == multiset(Codes(TranslationsCatalog))
    ensures Codes(Catalog) != Codes(TranslationsCatalog)
  {
    var a, b := Codes(Catalog), Codes(TranslationsCatalog);
    CatalogShape();
    TranslationsCatalogShape();
    assert Distinct(a) && Distinct(b);
    CatalogCodesInOlder();
    OlderCodesInCatalog();
    DistinctPermutation(a, b);
    assert a[1] == "bn" && b[1] == "ja";
  }

  lemma CatalogCodesInOlder()
    ensures forall k :: 0 <= k < |Codes(Catalog)| ==> Codes(Catalog)[k] in Codes(TranslationsCatalog)
  {
    var a, b := Codes(Catalog), Codes(TranslationsCatalog);
    var at := [0, 3, 2, 6, 4, 7, 8, 9, 1, 10, 11, 12, 13, 5, 14, 15];
    forall k | 0 <= k < |a| ensures a[k] in b {
      assert a[k] == b[at[k]];
    }
  }

  lemma OlderCodesInCatalog()
    ensures forall k :: 0 <= k < |Codes(TranslationsCatalog)| ==> Codes(TranslationsCatalog)[k] in Codes(Catalog)
  {
    var a, b := Codes(Catalog), Codes(TranslationsCatalog);
    var at := [0, 8, 2, 1, 4, 13, 3, 5, 6, 7, 9, 10, 11, 12, 14, 15];
    forall k | 0 <= k < |b| ensures b[k] in a {
      assert b[k] == a[at[k]];
    }
  }

  predicate IsCatalogCode(c: string) {
    c in Codes(Catalog)
  }

  lemma CatalogCodeLengths()
    ensures forall e :: e in Catalog ==> |e.value| == 2 || |e.value| == 5
  {
    forall e | e in Catalog ensures |e.value| == 2 || |e.value| == 5 {
      var j :| 0 <= j < |Catalog| && Catalog[j] == e;
    }
  }

  lemma EnglishInCatalog()
    ensures IsCatalogCode("en")
  {
    assert Codes(Catalog)[0] == "en";
  }

  lemma CatalogShape()
    ensures |Catalog| == 16 && Catalog[0] == LangEntry("en", "English")
    ensures DistinctCodes(Catalog)
  {
    var keys := [40201838, 40005230, 91908206, 40268402, 40133989, 40397161, 40461412, 40465524, 40526177, 40595311, 40922220, 91255922, 41055605, 40203123, 41249643, 41314665];
    assert CodeKey(Catalog[0].value) == keys[0];
    assert CodeKey(Catalog[1].value) == keys[1];
    assert CodeKey(Catalog[2].value) == keys[2];
    assert CodeKey(Catalog[3].value) == keys[3];
    assert CodeKey(Catalog[4].value) == keys[4];
    assert CodeKey(Catalog[5].value) == keys[5];
    assert CodeKey(Catalog[6].value) == keys[6];
    assert CodeKey(Catalog[7].value) == keys[7];
    assert CodeKey(Catalog[8].value) == keys[8];
    assert CodeKey(Catalog[9].value) == keys[9];
    assert CodeKey(Catalog[10].value) == keys[10];
    assert CodeKey(Catalog[11].value) == keys[11];
    assert CodeKey(Catalog[12].value) == keys[12];
    assert CodeKey(Catalog[13].value) == keys[13];
    assert CodeKey(Catalog[14].value) == keys[14];
    assert CodeKey(Catalog[15].value) == keys[15];
    forall i, j | 0 <= i < j < |Catalog| ensures Catalog[i].value != Catalog[j].value {
      assert keys[i] != keys[j];
    }
  }

  /**
    `browserLanguageMap`: BCP 47 (RFC 5646) tags and bare primary subtags, grouped by the
    catalog code they map to; the groups follow the catalog's order and no tag is listed twice.
  */
  const BrowserLanguageGroups: seq<(string, seq<string>)> := [
    ("en", ["en", "en-US", "en-GB", "en-AU", "en-CA", "en-IE", "en-NZ", "en-ZA"]),
    ("bn", ["bn", "bn-BD", "bn-IN"]),
    ("zh-cn", ["zh", "zh-CN", "zh-SG", "zh-TW", "zh-HK", "zh-MO"]),
    ("fr", ["fr", "fr-FR", "fr-CA", "fr-BE", "fr-CH", "fr-LU", "fr-MC"]),
    ("de", ["de", "de-DE", "de-AT", "de-CH", "de-LI", "de-LU"]),
    ("hi", ["hi", "hi-IN"]),
    ("id", ["id", "id-ID"]),
    ("it", ["it", "it-IT", "it-CH"]),
    ("ja", ["ja", "ja-JP"]),
    ("ko", ["ko", "ko-KR"]),
    ("pl", ["pl", "pl-PL"]),
    ("pt-br", ["pt", "pt-BR", "pt-PT"]),
    ("ru", ["ru", "ru-RU"]),
    ("es", ["es", "es-ES", "es-AR", "es-BO", "es-CL", "es-CO", "es-CR", "es-DO", "es-EC", "es-GT", "es-HN", "es-MX", "es-NI", "es-PA", "es-PE", "es-PR", "es-PY", "es-SV", "es-UY", "es-VE"]),
    ("uk", ["uk", "uk-UA"]),
    ("vi", ["vi", "vi-VN"])
  ]

  /** The code of the first group listing `tag`. */
  function LookupTag(groups: seq<(string, seq<string>)>, tag: string): (r: Option<string>)
    ensures r.Some? ==> exists k :: 0 <= k < |groups| && groups[k].0 == r.value
    decreases |groups|
  {
    if groups == [] then None
    else if tag in groups[0].1 then Some(groups[0].0)
    else
      var r := LookupTag(groups[1..], tag);
      assert r.Some? ==> exists k :: 0 <= k < |groups[1..]| && groups[1..][k].0 == r.value;
      assert forall k :: 0 <= k < |groups[1..]| ==> groups[1..][k] == groups[k + 1];
      r
  }

  /** Group `k` of `groups` maps to `codes[k]`. */
  predicate GroupsTarget(groups: seq<(string, seq<string>)>, codes: seq<string>) {
    |groups| == |codes| && forall k :: 0 <= k < |groups| ==> groups[k].0 == codes[k]
  }

  /** The table's groups follow the catalog, one group per catalog language. */
  lemma GroupsFollowCatalog()
    ensures GroupsTarget(BrowserLanguageGroups, Codes(Catalog))
  {
  }

  /** A lookup in a table whose groups target `codes` yields one of `codes`. */
  lemma LookupTagTargets(groups: seq<(string, seq<string>)>, codes: seq<string>, tag: string)
    requires GroupsTarget(groups, codes)
    ensures LookupTag(groups, tag).Some? ==> LookupTag(groups, tag).value in codes
  {
    var r := LookupTag(groups, tag);
    if r.Some? {
      var k :| 0 <= k < |groups| && groups[k].0 == r.value;
      assert codes[k] == r.value;
    }
  }

  /** `browserLanguageMap[tag]`; `None` for a tag the table does not list. Every listed tag maps to a catalog language. */
  function BrowserLanguage(tag: string): (r: Option<string>)
    ensures r.Some? ==> IsCatalogCode(r.value)
  {
    GroupsFollowCatalog();
    LookupTagTargets(BrowserLanguageGroups, Codes(Catalog), tag);
    LookupTag(BrowserLanguageGroups, tag)
  }

  predicate NotEnglish(c: string) {
    c != "en"
  }

  /** The catalog entries other than English. */
  function NotEnglishEntry(): LangEntry -> bool {
    (e: LangEntry) => NotEnglish(e.value)
  }

  /** `head`: "en", then the selected codes other than "en", each once, in order of first selection. */
  function Head(selected: Option<seq<string>>): (r: seq<string>)
    ensures |r| >= 1 && r[0] == "en"
  {
    match selected
    case None => ["en"]
    case Some(s) => ["en"] + Dedup(Filter(s, NotEnglish))
  }

  predicate SelectionInCatalog(selected: Option<seq<string>>) {
    selected.Some? ==> forall k :: 0 <= k < |selected.value| ==> IsCatalogCode(selected.value[k])
  }

  /** `entries.find(l => l.value === code)`. */
  function Find(entries: seq<LangEntry>, code: string): (r: Option<LangEntry>)
    ensures r.Some? ==> r.value in entries && r.value.value == code
    ensures r.None? ==> code !in Codes(entries)
    decreases |entries|
  {
    if entries == [] then None
    else if entries[0].value == code then Some(entries[0])
    else
      assert Codes(entries) == [entries[0].value] + Codes(entries[1..]);
      Find(entries[1..], code)
  }

  /** `codes.map(code => catalog.find(l => l.value === code)!)`. */
  function EntriesOf(catalog: seq<LangEntry>, codes: seq<string>): (r: seq<LangEntry>)
    requires forall k :: 0 <= k < |codes| ==> codes[k] in Codes(catalog)
    ensures |r| == |codes|
    ensures forall k :: 0 <= k < |r| ==> r[k] in catalog && r[k].value == codes[k]
    decreases |codes|
  {
    if codes == [] then [] else [Find(catalog, codes[0]).value] + EntriesOf(catalog, codes[1..])
  }

  function Outside(head: seq<string>): LangEntry -> bool {
    (l: LangEntry) => l.value !in head
  }

  /** The entries of `head`, then the rest of `catalog` in catalog order. */
  function Arrange(catalog: seq<LangEntry>, head: seq<string>): seq<LangEntry>
    requires forall k :: 0 <= k < |head| ==> head[k] in Codes(catalog)
  {
    EntriesOf(catalog, head) + Filter(catalog, Outside(head))
  }

  lemma HeadInCatalog(selected: Option<seq<string>>)
    requires SelectionInCatalog(selected)
    ensures forall k :: 0 <= k < |Head(selected)| ==> IsCatalogCode(Head(selected)[k])
  {
    CatalogShape();
    assert Catalog[0].value == "en";
    assert Codes(Catalog)[0] == "en";
  }

  /** The column order `getSortedLangCodes` returns. */
  function SortedLangCodes(selected: Option<seq<string>>): seq<LangEntry>
    requires SelectionInCatalog(selected)
  {
    HeadInCatalog(selected);
    Arrange(Catalog, Head(selected))
  }

  /** One turn of the `forEach` in `getSortedLangCodes`. */
  lemma HeadStep(s: seq<string>, i: nat)
    requires i < |s|
    ensures var before := Dedup(Filter(s[..i], NotEnglish));
      Dedup(Filter(s[..i + 1], NotEnglish))
        == if s[i] != "en" && s[i] !in ["en"] + before then before + [s[i]] else before
  {
    var x := s[i];
    var f := Filter(s[..i], NotEnglish);
    assert s[..i + 1] == s[..i] + [x];
    FilterConcat(s[..i], [x], NotEnglish);
    FilterSingleton(x, NotEnglish);
    if x != "en" {
      DedupSnoc(f, x);
    } else {
      assert f + [] == f;
    }
  }

  /** The `forEach` of `getSortedLangCodes` that builds `head`. */
  method CollectHead(selected: Option<seq<string>>) returns (head: seq<string>)
    ensures head == Head(selected)
  {
    head := ["en"];
    if selected.Some? {
      var s := selected.value;
      var i := 0;
      assert s[..0] == [];
      assert ["en"] + [] == ["en"];
      while i < |s|
        invariant 0 <= i <= |s|
        invariant head == ["en"] + Dedup(Filter(s[..i], NotEnglish))
      {
        var lang := s[i];
        ghost var before := Dedup(Filter(s[..i], NotEnglish));
        HeadStep(s, i);
        if lang != "en" && lang !in head {
          head := head + [lang];
          assert head == ["en"] + (before + [lang]);
        }
        i := i + 1;
      }
      assert s[..|s|] == s;
    }
  }

  /** `getSortedLangCodes`. */
  method GetSortedLangCodes(selected: Option<seq<string>>) returns (r: seq<LangEntry>)
    requires SelectionInCatalog(selected)
    ensures r == SortedLangCodes(selected)
  {
    var head := CollectHead(selected);
    HeadInCatalog(selected);
    var rest := Filter(Catalog, Outside(head));
    r := EntriesOf(Catalog, head) + rest;
  }

  lemma ArrangeDistinct(catalog: seq<LangEntry>, head: seq<string>)
    requires DistinctCodes(catalog) && Distinct(head)
    requires forall k :: 0 <= k < |head| ==> head[k] in Codes(catalog)
    ensures DistinctCodes(Arrange(catalog, head))
  {
    var front := EntriesOf(catalog, head);
    var rest := Filter(catalog, Outside(head));
    var r := Arrange(catalog, head);
    FilterDistinctCodes(catalog, Outside(head));
    forall i, j | 0 <= i < j < |r| ensures r[i].value != r[j].value {
      if j < |front| {
        assert head[i] != head[j];
      } else if i >= |front| {
        assert rest[i - |front|] == r[i] && rest[j - |front|] == r[j];
      } else {
        assert r[j] == rest[j - |front|];
        assert Outside(head)(r[j]);
      }
    }
  }

  lemma DistinctCodesEntries(entries: seq<LangEntry>)
    requires DistinctCodes(entries)
    ensures Distinct(entries)
  {
    forall i, j | 0 <= i < j < |entries| ensures entries[i] != entries[j] {
      assert entries[i].value != entries[j].value;
    }
  }

  lemma ArrangeCovers(catalog: seq<LangEntry>, head: seq<string>)
    requires DistinctCodes(catalog)
    requires forall k :: 0 <= k < |head| ==> head[k] in Codes(catalog)
    ensures forall k :: 0 <= k < |Arrange(catalog, head)| ==> Arrange(catalog, head)[k] in catalog
    ensures forall k :: 0 <= k < |catalog| ==> catalog[k] in Arrange(catalog, head)
  {
    ArrangeWithin(catalog, head);
    ArrangeKeepsAll(catalog, head);
  }

  lemma ArrangeWithin(catalog: seq<LangEntry>, head: seq<string>)
    requires forall k :: 0 <= k < |head| ==> head[k] in Codes(catalog)
    ensures forall k :: 0 <= k < |Arrange(catalog, head)| ==> Arrange(catalog, head)[k] in catalog
  {
    var front := EntriesOf(catalog, head);
    var rest := Filter(catalog, Outside(head));
    var r := Arrange(catalog, head);
    forall k | 0 <= k < |r| ensures r[k] in catalog {
      if k >= |front| {
        assert r[k] == rest[k - |front|];
      }
    }
  }

  lemma ArrangeKeepsAll(catalog: seq<LangEntry>, head: seq<string>)
    requires DistinctCodes(catalog)
    requires forall k :: 0 <= k < |head| ==> head[k] in Codes(catalog)
    ensures forall k :: 0 <= k < |catalog| ==> catalog[k] in Arrange(catalog, head)
  {
    forall k | 0 <= k < |catalog| ensures catalog[k] in Arrange(catalog, head) {
      ArrangeKeeps(catalog, head, k);
    }
  }

  /** A catalog entry is among the head's entries when its code was selected, and in the rest otherwise. */
  lemma ArrangeKeeps(catalog: seq<LangEntry>, head: seq<string>, k: nat)
    requires DistinctCodes(catalog)
    requires forall k :: 0 <= k < |head| ==> head[k] in Codes(catalog)
    requires k < |catalog|
    ensures catalog[k] in Arrange(catalog, head)
  {
    var front := EntriesOf(catalog, head);
    var rest := Filter(catalog, Outside(head));
    var e := catalog[k];
    if e.value in head {
      var m :| 0 <= m < |head| && head[m] == e.value;
      var j :| 0 <= j < |catalog| && catalog[j] == front[m];
      assert j == k;
      assert (front + rest)[m] == e;
    } else {
      assert Outside(head)(e);
      var m :| 0 <= m < |rest| && rest[m] == e;
      assert (front + rest)[|front| + m] == e;
    }
  }

  /** Arranging reorders the catalog: every entry exactly once, codes still distinct. */
  lemma ArrangePermutation(catalog: seq<LangEntry>, head: seq<string>)
    requires DistinctCodes(catalog) && Distinct(head)
    requires forall k :: 0 <= k < |head| ==> head[k] in Codes(catalog)
    ensures multiset(Arrange(catalog, head)) == multiset(catalog)
    ensures DistinctCodes(Arrange(catalog, head))
  {
    ArrangeDistinct(catalog, head);
    ArrangeCovers(catalog, head);
    DistinctCodesEntries(Arrange(catalog, head));
    DistinctCodesEntries(catalog);
    DistinctPermutation(Arrange(catalog, head), catalog);
  }

  lemma EnglishFirst(selected: Option<seq<string>>)
    requires SelectionInCatalog(selected)
    ensures SortedLangCodes(selected)[0] == LangEntry("en", "English")
  {
    CatalogShape();
    HeadInCatalog(selected);
    var r := EntriesOf(Catalog, Head(selected));
    assert r[0] in Catalog && r[0].value == "en";
    var j :| 0 <= j < |Catalog| && Catalog[j] == r[0];
    assert Catalog[0].value == "en";
  }

  /** After English come the selected languages, each once, in the order they were first selected. */
  lemma SelectedFollowEnglish(selected: Option<seq<string>>)
    requires SelectionInCatalog(selected)
    ensures Codes(SortedLangCodes(selected))[..|Head(selected)|] == Head(selected)
    ensures selected.Some? ==> Head(selected)[1..] == Dedup(Filter(selected.value, NotEnglish))
  {
  }

  lemma HeadDistinct(selected: Option<seq<string>>)
    ensures Distinct(Head(selected))
  {
    if selected.Some? {
      var d := Dedup(Filter(selected.value, NotEnglish));
      forall k | 0 <= k < |d| ensures d[k] != "en" {
        assert d[k] in Filter(selected.value, NotEnglish);
      }
    }
  }

  /** Whatever the selection, the columns are the catalog reordered: every language exactly once. */
  lemma SortedLangCodesPermutation(selected: Option<seq<string>>)
    requires SelectionInCatalog(selected)
    ensures multiset(SortedLangCodes(selected)) == multiset(Catalog)
    ensures |SortedLangCodes(selected)| == |Catalog|
    ensures DistinctCodes(SortedLangCodes(selected))
  {
    CatalogShape();
    HeadInCatalog(selected);
    HeadDistinct(selected);
    ArrangePermutation(Catalog, Head(selected));
    assert |multiset(SortedLangCodes(selected))| == |multiset(Catalog)|;
  }

  lemma ArrangeEnglishOnly(catalog: seq<LangEntry>)
    requires DistinctCodes(catalog) && |catalog| >= 1 && catalog[0].value == "en"
    ensures Arrange(catalog, ["en"]) == catalog
  {
    EnglishEntries(catalog);
    OutsideEnglish(catalog);
    assert catalog == [catalog[0]] + catalog[1..];
  }

  lemma EnglishEntries(catalog: seq<LangEntry>)
    requires |catalog| >= 1 && catalog[0].value == "en"
    ensures EntriesOf(catalog, ["en"]) == [catalog[0]]
  {
    assert ["en"][1..] == [];
    assert Codes(catalog)[0] == "en";
  }

  /** Every entry after English is kept by the filter that drops the head's codes. */
  lemma OutsideEnglish(catalog: seq<LangEntry>)
    requires DistinctCodes(catalog) && |catalog| >= 1 && catalog[0].value == "en"
    ensures Filter(catalog, Outside(["en"])) == catalog[1..]
  {
    TailOutsideEnglish(catalog);
    FilterAll(catalog[1..], Outside(["en"]));
    assert !Outside(["en"])(catalog[0]);
  }

  lemma TailOutsideEnglish(catalog: seq<LangEntry>)
    requires DistinctCodes(catalog) && |catalog| >= 1 && catalog[0].value == "en"
    ensures forall k :: 0 <= k < |catalog[1..]| ==> Outside(["en"])(catalog[1..][k])
  {
    forall k | 0 <= k < |catalog[1..]| ensures Outside(["en"])(catalog[1..][k]) {
      assert catalog[1..][k] == catalog[k + 1];
      assert catalog[k + 1].value != catalog[0].value;
    }
  }

  lemma HeadOfNothing()
    ensures Head(None) == ["en"] && Head(Some([])) == ["en"]
  {
    assert Filter([], NotEnglish) == [];
    assert ["en"] + [] == ["en"];
  }

  /** With no stored selection the columns are the catalog itself. */
  lemma NoSelectionKeepsCatalog()
    ensures SortedLangCodes(None) == Catalog
  {
    CatalogShape();
    HeadOfNothing();
    ArrangeEnglishOnly(Catalog);
  }

  /** An empty selection leaves the catalog order as it is, too. */
  lemma EmptySelectionKeepsCatalog()
    ensures SortedLangCodes(Some([])) == Catalog
  {
    CatalogShape();
    HeadOfNothing();
    ArrangeEnglishOnly(Catalog);
  }
}

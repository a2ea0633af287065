/**
  scripts/python/issue.py: which language and which page of the site an open issue of the
  website repository is about. The language comes from the issue's `language/...` labels, or
  else from a bracketed code at the start of its title; the page is looked up among the
  candidate paths derived from the path-like text of the title.

  Fetching the issues, reading the list of known files and the regular-expression searches of
  `extract_path_like_string` are not modelled: the model takes the known paths, the results of
  the three searches and the language-substituted path as inputs.
*/
module Issue {
  import opened Wrappers
  import opened Strings
  import opened Seqs
  import opened PosixPath

  // ---------------------------------------------------------------- guess_language

  /** The codes of LANGUAGE_LABELS, in its order; Arabic is commented out there. */
  const LabelCodes: seq<string> := ["en", "ko", "no", "ja", "zh", "pt", "es", "hi", "id", "de", "fr", "it", "vi", "ru", "uk", "pl", "fa", "bn"]

  function Label(code: string): string {
    "language/" + code
  }

  /** LANGUAGE_LABELS. */
  const LanguageLabels: seq<string> := [
    "language/en", "language/ko", "language/no", "language/ja", "language/zh", "language/pt",
    "language/es", "language/hi", "language/id", "language/de", "language/fr", "language/it",
    "language/vi", "language/ru", "language/uk", "language/pl", "language/fa", "language/bn"]

  /** LANGUAGE_ABBR_IN_TITLE: the codes a title may carry; Portuguese is `pt-br` here, Arabic is left out. */
  const TitleCodes: seq<string> := ["en", "ko", "no", "ja", "zh", "pt-br", "es", "hi", "id", "de", "fr", "it", "vi", "ru", "uk", "pl", "fa", "bn"]

  /** The content directories of those languages, position by position. */
  const LanguageDirectories: seq<string> := ["en", "ko", "no", "ja", "zh-cn", "pt-br", "es", "hi", "id", "de", "fr", "it", "vi", "ru", "uk", "pl", "fa", "bn"]

  /** `label.split("/")[-1]`. */
  function LabelCode(name: string): string {
    var pieces := Split(name, '/');
    pieces[|pieces| - 1]
  }

  /** A code that is the directory name of another: `pt` is `pt-br` and `zh` is `zh-cn`. */
  function Remap(code: string): string {
    if code == "pt" then "pt-br" else if code == "zh" then "zh-cn" else code
  }

  /** Each label is `language/` and its code. */
  lemma LabelsOfCodes()
    ensures |LanguageLabels| == |LabelCodes|
    ensures forall i :: 0 <= i < |LabelCodes| ==> LanguageLabels[i] == Label(LabelCodes[i]) && '/' !in LabelCodes[i]
  {
  }

  /** The code of a label is what follows `language/`. */
  lemma LabelCodeOf(code: string)
    requires '/' !in code
    ensures LabelCode(Label(code)) == code
  {
    SplitFree(code, '/');
    SplitAtFirst("language", '/', code);
    assert Label(code) == "language" + ['/'] + code;
  }

  /** Remapped, the label codes and the title codes are the content directories, position by position. */
  lemma RemapGivesDirectories()
    ensures |LabelCodes| == |TitleCodes| == |LanguageDirectories|
    ensures forall i :: 0 <= i < |LabelCodes| ==> Remap(LabelCodes[i]) == LanguageDirectories[i]
    ensures forall i :: 0 <= i < |TitleCodes| ==> Remap(TitleCodes[i]) == LanguageDirectories[i]
  {
  }

  /** The first entry of LANGUAGE_LABELS, from position `i` on, that the issue carries. */
  function FirstLabel(labels: seq<string>, i: nat): (r: Option<nat>)
    requires i <= |LanguageLabels|
    ensures r.Some? ==> i <= r.value < |LanguageLabels| && LanguageLabels[r.value] in labels
    ensures r.Some? ==> forall j :: i <= j < r.value ==> LanguageLabels[j] !in labels
    ensures r.None? ==> forall j :: i <= j < |LanguageLabels| ==> LanguageLabels[j] !in labels
    decreases |LanguageLabels| - i
  {
    if i == |LanguageLabels| then None
    else if LanguageLabels[i] in labels then Some(i)
    else FirstLabel(labels, i + 1)
  }

  /** The position of the first `c` in `s`. */
  function IndexOf(s: string, c: char): (r: Option<nat>)
    ensures r.Some? ==> r.value < |s| && s[r.value] == c && c !in s[..r.value]
    ensures r.None? ==> c !in s
    decreases |s|
  {
    if s == [] then None
    else if s[0] == c then Some(0)
    else match IndexOf(s[1..], c)
      case None => None
      case Some(j) => assert s[..j + 1] == [s[0]] + s[1..][..j]; Some(j + 1)
  }

  /** Group 1 of `^\[([^\]]+)\]` matched at the start of `t`. */
  function TagOf(t: string): Option<string> {
    if t != [] && t[0] == '[' then
      match IndexOf(t[1..], ']')
      case Some(j) => if j > 0 then Some(t[1..j + 1]) else None
      case None => None
    else None
  }

  /** The tag is the non-empty text between an opening `[` and the first `]` after it. */
  lemma TagOfMeaning(t: string, g: string)
    ensures TagOf(t) == Some(g) <==> g != [] && ']' !in g && StartsWith(t, "[" + g + "]")
  {
    if TagOf(t) == Some(g) {
      var j := IndexOf(t[1..], ']').value;
      assert t[..|g| + 2] == "[" + g + "]";
    }
    if g != [] && ']' !in g && StartsWith(t, "[" + g + "]") {
      var u := "[" + g + "]";
      assert t[..|u|] == u;
      var s := t[1..];
      forall k | 0 <= k < |g| ensures s[k] == g[k] {
        assert s[k] == t[..|u|][k + 1] == u[k + 1];
      }
      assert s[|g|] == t[..|u|][|g| + 1] == u[|g| + 1] == ']';
      assert s[..|g|] == g;
      var r := IndexOf(s, ']');
      assert r.Some?;
      assert s[..|g|] == t[1..|g| + 1];
    }
  }

  /** The tag of a title is looked for after `strip()`. */
  function TitleTag(title: string): Option<string> {
    TagOf(StripSpace(title))
  }

  /** `match.group(1).lower().strip()`, or "" when the title has no tag. */
  function TitleCode(title: string): string {
    match TitleTag(title)
    case None => ""
    case Some(g) => StripSpace(Lower(g))
  }

  /**
    Lines 116-125 as written: a tag code of LANGUAGE_ABBR_IN_TITLE is returned unchanged,
    because line 125 overwrites what the `zh` branch assigned (the `pt` branch cannot fire:
    `pt` is not in the list).
  */
  function TitleLanguageAsWritten(title: string): Option<string> {
    var code := TitleCode(title);
    if code in TitleCodes then Some(code) else None
  }

  /** The title branch as intended: the code mapped to its directory, as a label's code is. */
  function TitleLanguage(title: string): Option<string> {
    var code := TitleCode(title);
    if code in TitleCodes then Some(Remap(code)) else None
  }

  /** `guess_language`: the first label of LANGUAGE_LABELS the issue carries, else the title's tag. */
  function GuessedLanguage(labels: seq<string>, title: string): Option<string> {
    match FirstLabel(labels, 0)
    case Some(i) => Some(Remap(LabelCodes[i]))
    case None => TitleLanguage(title)
  }

  function GuessedLanguageAsWritten(labels: seq<string>, title: string): Option<string> {
    match FirstLabel(labels, 0)
    case Some(i) => Some(Remap(LabelCodes[i]))
    case None => TitleLanguageAsWritten(title)
  }

  /** `guess_language`: the labels loop with its `break`, then the title when no label matched. */
  method GuessLanguage(labels: seq<string>, title: string) returns (lang: Option<string>)
    ensures lang == GuessedLanguage(labels, title)
  {
    lang := None;
    var i := 0;
    while i < |LanguageLabels|
      invariant 0 <= i <= |LanguageLabels|
      invariant lang.None?
      invariant FirstLabel(labels, 0) == FirstLabel(labels, i)
    {
      var name := LanguageLabels[i];
      if name in labels {
        LabelsOfCodes();
        LabelCodeOf(LabelCodes[i]);
        lang := Some(Remap(LabelCode(name)));
        break;
      }
      i := i + 1;
    }
    if lang.None? {
      lang := TitleLanguage(title);
    }
  }

  /**
    The labels decide in the order of LANGUAGE_LABELS, not in the order the issue lists them:
    the first listed label the issue carries gives its code, remapped; the title is only read
    when the issue carries none of them.
  */
  lemma GuessedLanguageMeaning(labels: seq<string>, title: string, i: nat)
    requires i < |LanguageLabels|
    ensures LanguageLabels[i] in labels && (forall j :: 0 <= j < i ==> LanguageLabels[j] !in labels) ==>
      GuessedLanguage(labels, title) == Some(Remap(LabelCodes[i]))
    ensures LanguageLabels[i] in labels ==> forall t :: GuessedLanguage(labels, t) == GuessedLanguage(labels, title)
    ensures (forall j :: 0 <= j < |LanguageLabels| ==> LanguageLabels[j] !in labels) ==> GuessedLanguage(labels, title) == TitleLanguage(title)
  {
    var r := FirstLabel(labels, 0);
    if LanguageLabels[i] in labels {
      assert r.Some?;
      if forall j :: 0 <= j < i ==> LanguageLabels[j] !in labels {
        assert !(r.value < i);
      }
    }
  }

  /** Every guess names a content directory of the site; in particular Arabic is never guessed. */
  lemma GuessedLanguageIsDirectory(labels: seq<string>, title: string)
    ensures GuessedLanguage(labels, title).Some? ==> GuessedLanguage(labels, title).value in LanguageDirectories
    ensures GuessedLanguage(labels, title) != Some("ar")
    ensures GuessedLanguageAsWritten(labels, title) != Some("ar")
  {
    RemapGivesDirectories();
    assert "ar" !in LanguageDirectories;
    assert "ar" !in TitleCodes;
    match FirstLabel(labels, 0)
    case Some(i) =>
      assert Remap(LabelCodes[i]) == LanguageDirectories[i];
    case None =>
      var code := TitleCode(title);
      if code in TitleCodes {
        var k :| 0 <= k < |TitleCodes| && TitleCodes[k] == code;
        assert Remap(code) == LanguageDirectories[k];
      }
  }

  /**
    As written, a title tagged `[zh]` without a label gives `zh`, which is not a content
    directory; as intended it gives `zh-cn`, as the label `language/zh` does.
  */
  lemma TitleZhAsWritten(labels: seq<string>, title: string)
    requires forall j :: 0 <= j < |LanguageLabels| ==> LanguageLabels[j] !in labels
    requires TitleCode(title) == "zh"
    ensures GuessedLanguageAsWritten(labels, title) == Some("zh")
    ensures "zh" !in LanguageDirectories
    ensures GuessedLanguage(labels, title) == Some("zh-cn")
  {
    var r := FirstLabel(labels, 0);
    assert r.None?;
    ZhCode();
  }

  lemma ZhCode()
    ensures "zh" in TitleCodes && "zh" !in LanguageDirectories
  {
    assert "zh" == TitleCodes[4];
  }

  lemma LabelZh(title: string)
    ensures GuessedLanguage(["language/zh"], title) == Some("zh-cn")
  {
    var l := ["language/zh"];
    var r := FirstLabel(l, 0);
    assert LanguageLabels[4] in l;
    assert r.Some?;
    assert r.value <= 4;
    assert forall j :: 0 <= j < 4 ==> LanguageLabels[j] !in l;
  }

  /** The title `[zh]` is one of them. */
  lemma TitleZhExample()
    ensures TitleCode("[zh]") == "zh"
  {
    var t := "[zh]";
    assert TagOf(t) == Some("zh") by {
      assert t[1..] == "zh]";
      assert IndexOf("zh]", ']') == Some(2);
      assert t[1..3] == "zh";
    }
    assert Lower("zh") == "zh";
    StripSpaceKeeps(t);
    StripSpaceKeeps("zh");
  }

  // ---------------------------------------------------------------- extract_path_like_string

  /**
    `extract_path_like_string` over the results of its `re.search` calls, in pattern order:
    a match replaces the kept one when it is longer than the kept one, which has already lost
    its leading `/`. The result is one of the matches without its leading slash, and no match
    is more than one character longer than it.
  */
  method ExtractPathLike(found: seq<Option<string>>) returns (longest: Option<string>)
    ensures longest.None? <==> forall k :: 0 <= k < |found| ==> found[k].None?
    ensures longest.Some? ==> exists k :: 0 <= k < |found| && found[k].Some? && longest.value == RemovePrefix(found[k].value, "/")
    ensures longest.Some? ==> forall k :: 0 <= k < |found| && found[k].Some? ==> |found[k].value| <= |longest.value| + 1
  {
    longest := None;
    for k := 0 to |found|
      invariant longest.None? <==> forall j :: 0 <= j < k ==> found[j].None?
      invariant longest.Some? ==> exists j :: 0 <= j < k && found[j].Some? && longest.value == RemovePrefix(found[j].value, "/")
      invariant longest.Some? ==> forall j :: 0 <= j < k && found[j].Some? ==> |found[j].value| <= |longest.value| + 1
    {
      if found[k].Some? {
        var f := found[k].value;
        if longest.None? || |f| > |longest.value| {
          longest := Some(RemovePrefix(f, "/"));
        }
      }
    }
  }

  // ---------------------------------------------------------------- gen_path_candidates

  const SitePrefix: string := "k8s.io/"

  /** The argument of `lstrip("k8s.io/")`, which Python reads as a set of characters. */
  const SiteChars: set<char> := {'k', '8', 's', '.', 'i', 'o', '/'}

  /** Lines 160-161 as written: after `k8s.io/`, every further leading `k 8 s . i o /` goes too. */
  function SiteRelativeAsWritten(path: string): string {
    if StartsWith(path, SitePrefix) then LStrip(path, SiteChars) else path
  }

  /** The site name removed as a prefix, as intended. */
  function SiteRelative(path: string): string {
    RemovePrefix(path, SitePrefix)
  }

  lemma SiteRelativeMeaning(path: string)
    ensures StartsWith(path, SitePrefix) ==> SitePrefix + SiteRelative(path) == path
    ensures !StartsWith(path, SitePrefix) ==> SiteRelative(path) == path
  {
    if StartsWith(path, SitePrefix) {
      assert path == path[..7] + path[7..];
    }
  }

  /** Leading characters of the set go one after the other. */
  lemma {:induction false} LStripDrops(a: string, b: string, chars: set<char>)
    requires forall i :: 0 <= i < |a| ==> a[i] in chars
    ensures LStrip(a + b, chars) == LStrip(b, chars)
    decreases |a|
  {
    if a != [] {
      var s := a + b;
      assert s[0] in chars by {
        assert s[0] == a[0];
      }
      assert LStrip(s, chars) == LStrip(s[1..], chars);
      assert s[1..] == a[1..] + b;
      LStripDrops(a[1..], b, chars);
    } else {
      assert a + b == b;
    }
  }

  /**
    The code as written agrees with the intended prefix removal exactly when what follows
    `k8s.io/` does not start with one of `k 8 s . i o /`.
  */
  lemma SiteRelativeAsWrittenAgrees(rest: string)
    ensures SiteRelativeAsWritten(SitePrefix + rest) == SiteRelative(SitePrefix + rest) <==> rest == [] || rest[0] !in SiteChars
  {
    var path := SitePrefix + rest;
    assert StartsWith(path, SitePrefix);
    assert path[7..] == rest;
    LStripDrops(SitePrefix, rest, SiteChars);
    if rest != [] && rest[0] in SiteChars {
      assert |LStrip(rest, SiteChars)| < |rest|;
    }
  }

  /** After `k8s.io/`, the code as written drops a further run of site characters. */
  lemma SiteRelativeAsWrittenDrops(x: string, y: string)
    requires forall i :: 0 <= i < |x| ==> x[i] in SiteChars
    requires y == [] || y[0] !in SiteChars
    ensures SiteRelativeAsWritten(SitePrefix + (x + y)) == y
    ensures SiteRelative(SitePrefix + (x + y)) == x + y
  {
    var path := SitePrefix + (x + y);
    assert path == SitePrefix + x + y;
    assert StartsWith(path, SitePrefix);
    assert path[7..] == x + y;
    LStripDrops(SitePrefix + x, y, SiteChars);
  }

  /** The Indonesian page `k8s.io/id/docs/home` loses the `i` of its language. */
  lemma SiteRelativeAsWrittenIndonesian()
    ensures SiteRelativeAsWritten(SitePrefix + "id/docs/home") == "d/docs/home"
    ensures SiteRelative(SitePrefix + "id/docs/home") == "id/docs/home"
  {
    assert "id/docs/home" == "i" + "d/docs/home";
    SiteRelativeAsWrittenDrops("i", "d/docs/home");
  }

  /** What the written strip leaves never starts with the site name again. */
  lemma SiteRelativeAsWrittenStable(path: string)
    ensures !StartsWith(SiteRelativeAsWritten(path), SitePrefix)
    ensures SiteRelative(SiteRelativeAsWritten(path)) == SiteRelativeAsWritten(path)
  {
  }

  /** `part.replace("_", "-")`, unless the part starts with `_`. */
  function HyphenPart(part: string): string {
    if StartsWith(part, "_") then part else ReplaceAll(part, "_", "-")
  }

  /** A hyphenated part has the same length, and every `_` of a part not starting with `_` is a `-`. */
  lemma HyphenPartMeaning(part: string)
    ensures |HyphenPart(part)| == |part|
    ensures forall i :: 0 <= i < |part| ==>
      HyphenPart(part)[i] == if part[i] == '_' && part[0] != '_' then '-' else part[i]
  {
    ReplaceAllChar(part, '_', '-');
  }

  function Segment(): string -> bool {
    (part: string) => part != ""
  }

  function HyphenFn(): string -> string {
    (part: string) => HyphenPart(part)
  }

  /** `hyphenated_parts`: the non-empty parts, hyphenated. */
  function HyphenParts(parts: seq<string>): seq<string> {
    Map(Filter(parts, Segment()), HyphenFn())
  }

  /** The loop that builds `hyphenated_parts`. */
  method HyphenateParts(parts: seq<string>) returns (hyphenated: seq<string>)
    ensures hyphenated == HyphenParts(parts)
  {
    hyphenated := [];
    for k := 0 to |parts|
      invariant hyphenated == HyphenParts(parts[..k])
    {
      MapFilterSnoc(parts[..k], parts[k], Segment(), HyphenFn());
      assert parts[..k + 1] == parts[..k] + [parts[k]];
      var part := parts[k];
      if part == "" {
        continue;
      }
      if StartsWith(part, "_") {
        hyphenated := hyphenated + [part];
      } else {
        hyphenated := hyphenated + [ReplaceAll(part, "_", "-")];
      }
    }
    assert parts[..|parts|] == parts;
  }

  /** `hyphenated_path`. */
  function Hyphenated(path: string): string {
    Join(HyphenParts(Split(path, '/')), "/")
  }

  /** Hyphenating a part twice is hyphenating it once. */
  lemma HyphenPartIdempotent(part: string)
    ensures HyphenPart(HyphenPart(part)) == HyphenPart(part)
  {
    HyphenPartMeaning(part);
    var h := HyphenPart(part);
    HyphenPartMeaning(h);
    assert HyphenPart(h) == h;
  }

  /** The hyphenated path has no empty segment, and hyphenating it again changes nothing. */
  lemma HyphenatedIdempotent(path: string)
    ensures forall k :: 0 <= k < |HyphenParts(Split(path, '/'))| ==> HyphenParts(Split(path, '/'))[k] != ""
    ensures Hyphenated(Hyphenated(path)) == Hyphenated(path)
  {
    var hs := HyphenParts(Split(path, '/'));
    var kept := Filter(Split(path, '/'), Segment());
    forall k | 0 <= k < |hs| ensures hs[k] != "" && '/' !in hs[k] {
      HyphenPartMeaning(kept[k]);
      assert kept[k] in Split(path, '/');
      assert hs[k] == HyphenPart(kept[k]);
    }
    if hs == [] {
      assert Split("", '/') == [""];
      assert Filter([""], Segment()) == [] by { FilterSingleton("", Segment()); }
    } else {
      SplitJoin(hs, '/');
      FilterAll(hs, Segment());
      forall k | 0 <= k < |hs| ensures HyphenPart(hs[k]) == hs[k] {
        HyphenPartIdempotent(kept[k]);
      }
      assert HyphenParts(hs) == hs;
    }
  }

  /** `common_path_prefixes`. */
  function Prefixes(language: string): seq<string> {
    var c := "content/" + language + "/";
    [ "", "content/", c, c + "docs/", c + "docs/concepts/", c + "docs/contribute/",
      c + "docs/doc-contributor-tools/", c + "docs/home/", c + "docs/images/", c + "docs/reference/",
      c + "docs/setup/", c + "docs/tasks/", c + "docs/tutorials/", c + "blog/", c + "blog/_posts/",
      c + "careers/", c + "case-studies/", c + "community/", c + "examples/", c + "includes/",
      c + "partners/", c + "releases/", c + "training/"]
  }

  /** `base.endswith((".md", ".html"))`. */
  predicate IsPageFile(base: string) {
    EndsWith(base, ".md") || EndsWith(base, ".html")
  }

  /** The candidates one base adds: itself, and unless it already names a page, its six page files. */
  function Expand(base: string): set<string> {
    if IsPageFile(base) then {base}
    else {base, base + ".md", base + "/index.md", base + "/_index.md", base + ".html", base + "/index.html", base + "/_index.html"}
  }

  /** A base always is a candidate; everything else it adds extends it to a page file. */
  lemma ExpandMeaning(base: string)
    ensures base in Expand(base)
    ensures IsPageFile(base) ==> Expand(base) == {base}
    ensures forall x :: x in Expand(base) && x != base ==> !IsPageFile(base) && StartsWith(x, base) && IsPageFile(x)
  {
    if !IsPageFile(base) {
      forall x | x in Expand(base) && x != base ensures StartsWith(x, base) && IsPageFile(x) {
        if x == base + ".md" { VariantIsPage(base, ".md", ".md"); }
        else if x == base + "/index.md" { VariantIsPage(base, "/index.md", ".md"); }
        else if x == base + "/_index.md" { VariantIsPage(base, "/_index.md", ".md"); }
        else if x == base + ".html" { VariantIsPage(base, ".html", ".html"); }
        else if x == base + "/index.html" { VariantIsPage(base, "/index.html", ".html"); }
        else { VariantIsPage(base, "/_index.html", ".html"); }
      }
    }
  }

  /** A base with a page ending appended starts with the base and names a page. */
  lemma VariantIsPage(base: string, v: string, ext: string)
    requires ext == ".md" || ext == ".html"
    requires EndsWith(v, ext)
    ensures StartsWith(base + v, base) && IsPageFile(base + v)
  {
    var x := base + v;
    assert x[..|base|] == base;
    assert x[|x| - |ext|..] == v[|v| - |ext|..];
  }

  /** The union of the candidates of some bases. */
  function ExpandAll(bases: seq<string>): set<string>
    decreases |bases|
  {
    if bases == [] then {} else ExpandAll(bases[..|bases| - 1]) + Expand(bases[|bases| - 1])
  }

  lemma ExpandAllSnoc(bases: seq<string>, base: string)
    ensures ExpandAll(bases + [base]) == ExpandAll(bases) + Expand(base)
  {
    assert (bases + [base])[..|bases|] == bases;
  }

  /** A candidate of some bases is a candidate of one of them. */
  lemma {:induction false} ExpandAllMember(bases: seq<string>, x: string)
    ensures x in ExpandAll(bases) <==> exists k :: 0 <= k < |bases| && x in Expand(bases[k])
    decreases |bases|
  {
    if bases != [] {
      var n := |bases| - 1;
      ExpandAllMember(bases[..n], x);
      if x in ExpandAll(bases[..n]) {
        var k :| 0 <= k < n && x in Expand(bases[..n][k]);
        assert bases[..n][k] == bases[k];
      }
      if exists k :: 0 <= k < |bases| && x in Expand(bases[k]) {
        var k :| 0 <= k < |bases| && x in Expand(bases[k]);
        if k < n {
          assert bases[..n][k] == bases[k];
        }
      }
    }
  }

  /** The two bases `f(prefix)` and `g(prefix)` of each prefix, in order. */
  function Paired(prefixes: seq<string>, f: string -> string, g: string -> string): (r: seq<string>)
    ensures |r| == 2 * |prefixes|
    decreases |prefixes|
  {
    if prefixes == [] then [] else [f(prefixes[0]), g(prefixes[0])] + Paired(prefixes[1..], f, g)
  }

  /** The bases of the `k`-th prefix sit at `2k` and `2k + 1`. */
  lemma {:induction false} PairedAt(prefixes: seq<string>, f: string -> string, g: string -> string, k: nat)
    requires k < |prefixes|
    ensures Paired(prefixes, f, g)[2 * k] == f(prefixes[k])
    ensures Paired(prefixes, f, g)[2 * k + 1] == g(prefixes[k])
    decreases k
  {
    if k > 0 {
      PairedAt(prefixes[1..], f, g, k - 1);
      assert prefixes[1..][k - 1] == prefixes[k];
    }
  }

  /** `str(Path(prefix).joinpath(p))` as a function of the prefix. */
  function JoinOnto(p: string): string -> string {
    (prefix: string) => JoinPath(prefix, p)
  }

  /** The two bases of each prefix, in order: the path and the hyphenated path joined onto it. */
  function PrefixBases(prefixes: seq<string>, path: string, hyphenated: string): seq<string> {
    Paired(prefixes, JoinOnto(path), JoinOnto(hyphenated))
  }

  /** The shortened paths `"/".join(parts[i:])` for `i` from 1 up to the number of parts. */
  function ShortenedBases(parts: seq<string>): (r: seq<string>)
    ensures |r| == if parts == [] then 0 else |parts| - 1
    ensures forall i :: 1 <= i < |parts| ==> r[i - 1] == Join(parts[i..], "/")
  {
    seq(if parts == [] then 0 else |parts| - 1, k requires 0 <= k < |parts| - 1 => Join(parts[k + 1..], "/"))
  }

  /** Every base the loops of `gen_path_candidates` expand from the site-relative path `p`, in order. */
  function BasesOf(p: string, language: string): seq<string> {
    var h := Hyphenated(p);
    PrefixBases(Prefixes(language), p, h) + ShortenedBases(Split(p, '/')) + ShortenedBases(Split(h, '/'))
  }

  /** The bases, with the site name removed as intended. */
  function CandidateBases(path: string, language: string): seq<string> {
    BasesOf(SiteRelative(path), language)
  }

  /** The set `gen_path_candidates` returns as a list, with the site name removed as intended. */
  function Candidates(path: string, language: string): set<string> {
    ExpandAll(CandidateBases(path, language))
  }

  /** The set `gen_path_candidates` returns as written, after `lstrip("k8s.io/")`. */
  function CandidatesAsWritten(path: string, language: string): set<string> {
    ExpandAll(BasesOf(SiteRelativeAsWritten(path), language))
  }

  /**
    The written candidates are the intended ones for every path without the site name, and for
    every path where what follows `k8s.io/` does not start with one of `k 8 s . i o /`.
  */
  lemma CandidatesAsWrittenAgrees(path: string, language: string)
    ensures !StartsWith(path, SitePrefix) ==> CandidatesAsWritten(path, language) == Candidates(path, language)
    ensures StartsWith(path, SitePrefix) && (|path| == 7 || path[7] !in SiteChars) ==>
      CandidatesAsWritten(path, language) == Candidates(path, language)
  {
    if !StartsWith(path, SitePrefix) {
      SameRelativeSameCandidates(path, language);
    } else if |path| == 7 || path[7] !in SiteChars {
      var rest := path[7..];
      assert path == SitePrefix + rest;
      SiteRelativeAsWrittenAgrees(rest);
      SameRelativeSameCandidates(path, language);
    }
  }

  lemma SameRelativeSameCandidates(path: string, language: string)
    requires SiteRelativeAsWritten(path) == SiteRelative(path)
    ensures CandidatesAsWritten(path, language) == Candidates(path, language)
  {
  }

  /**
    After `k8s.io/`, a run `x` of site characters is lost: the written candidates are those of
    what follows it, the intended ones those of the whole rest. For `k8s.io/id/docs/home` they are
    the candidates of `d/docs/home` against those of the Indonesian page `id/docs/home`.
  */
  lemma CandidatesAsWrittenDrops(x: string, y: string, language: string)
    requires forall i :: 0 <= i < |x| ==> x[i] in SiteChars
    requires y == [] || y[0] !in SiteChars
    ensures CandidatesAsWritten(SitePrefix + (x + y), language) == ExpandAll(BasesOf(y, language))
    ensures Candidates(SitePrefix + (x + y), language) == ExpandAll(BasesOf(x + y, language))
  {
    SiteRelativeAsWrittenDrops(x, y);
  }

  /** A loop that adds the candidates of `bases[k]` for every `k`, counted from `done`. */
  method AddBases(candidates: set<string>, bases: seq<string>, ghost done: seq<string>) returns (r: set<string>)
    requires candidates == ExpandAll(done)
    ensures r == ExpandAll(done + bases)
  {
    r := candidates;
    assert done + bases[..0] == done;
    for k := 0 to |bases|
      invariant r == ExpandAll(done + bases[..k])
    {
      ExpandAllSnoc(done + bases[..k], bases[k]);
      assert done + bases[..k + 1] == done + bases[..k] + [bases[k]];
      r := r + Expand(bases[k]);
    }
    assert bases[..|bases|] == bases;
  }

  /**
    The loops of `gen_path_candidates` over the site-relative path `p`: every base adds its
    candidates, the path and the hyphenated path under each prefix, then the shortened paths of each.
  */
  method CandidatesFrom(p: string, language: string) returns (candidates: set<string>)
    ensures candidates == ExpandAll(BasesOf(p, language))
  {
    var hyphenatedParts := HyphenateParts(Split(p, '/'));
    var h := Join(hyphenatedParts, "/");
    var prefixed := PrefixBases(Prefixes(language), p, h);
    candidates := AddBases({}, prefixed, []);
    assert [] + prefixed == prefixed;
    var shortPlain := ShortenedBases(Split(p, '/'));
    candidates := AddBases(candidates, shortPlain, prefixed);
    var shortHyphenated := ShortenedBases(Split(h, '/'));
    candidates := AddBases(candidates, shortHyphenated, prefixed + shortPlain);
  }

  /**
    `gen_path_candidates` from the point where the path is lowercased and its language codes are
    substituted, with the site name removed as a prefix, as intended.
  */
  method GenPathCandidates(path: string, language: string) returns (candidates: set<string>)
    ensures candidates == Candidates(path, language)
  {
    var p := path;
    if StartsWith(p, SitePrefix) {
      p := RemovePrefix(p, SitePrefix);
    }
    assert p == SiteRelative(path);
    candidates := CandidatesFrom(p, language);
  }

  /** `gen_path_candidates` as written: `lstrip("k8s.io/")` after the `startswith` test. */
  method GenPathCandidatesAsWritten(path: string, language: string) returns (candidates: set<string>)
    ensures candidates == CandidatesAsWritten(path, language)
  {
    var p := path;
    if StartsWith(p, SitePrefix) {
      p := LStrip(p, SiteChars);
    }
    assert p == SiteRelativeAsWritten(path);
    candidates := CandidatesFrom(p, language);
  }

  /** The candidates are exactly what the bases expand to. */
  lemma CandidatesMeaning(path: string, language: string, x: string)
    ensures x in Candidates(path, language) <==>
      exists k :: 0 <= k < |CandidateBases(path, language)| && x in Expand(CandidateBases(path, language)[k])
  {
    ExpandAllMember(CandidateBases(path, language), x);
  }

  /** For every prefix, the path and the hyphenated path joined onto it, with their page files, are candidates. */
  lemma CandidatesOfPrefix(path: string, language: string, k: nat)
    requires k < |Prefixes(language)|
    ensures var p := SiteRelative(path);
      && Expand(JoinPath(Prefixes(language)[k], p)) <= Candidates(path, language)
      && Expand(JoinPath(Prefixes(language)[k], Hyphenated(p))) <= Candidates(path, language)
  {
    var bases := CandidateBases(path, language);
    var p := SiteRelative(path);
    var pb := PrefixBases(Prefixes(language), p, Hyphenated(p));
    PairedAt(Prefixes(language), JoinOnto(p), JoinOnto(Hyphenated(p)), k);
    assert bases[2 * k] == pb[2 * k] && bases[2 * k + 1] == pb[2 * k + 1];
    forall x | x in Expand(JoinPath(Prefixes(language)[k], p)) ensures x in Candidates(path, language) {
      ExpandAllMember(bases, x);
    }
    forall x | x in Expand(JoinPath(Prefixes(language)[k], Hyphenated(p))) ensures x in Candidates(path, language) {
      ExpandAllMember(bases, x);
    }
  }

  /** Every shortened path, plain and hyphenated, with its page files, is a candidate. */
  lemma CandidatesOfShortened(path: string, language: string, i: nat)
    ensures var parts := Split(SiteRelative(path), '/');
      1 <= i < |parts| ==> Expand(Join(parts[i..], "/")) <= Candidates(path, language)
    ensures var parts := Split(Hyphenated(SiteRelative(path)), '/');
      1 <= i < |parts| ==> Expand(Join(parts[i..], "/")) <= Candidates(path, language)
  {
    var bases := CandidateBases(path, language);
    var p := SiteRelative(path);
    var h := Hyphenated(p);
    var n := |PrefixBases(Prefixes(language), p, h)|;
    var sp := ShortenedBases(Split(p, '/'));
    var sh := ShortenedBases(Split(h, '/'));
    if 1 <= i < |Split(p, '/')| {
      assert bases[n + i - 1] == sp[i - 1];
      forall x | x in Expand(Join(Split(p, '/')[i..], "/")) ensures x in Candidates(path, language) {
        ExpandAllMember(bases, x);
      }
    }
    if 1 <= i < |Split(h, '/')| {
      assert bases[n + |sp| + i - 1] == sh[i - 1];
      forall x | x in Expand(Join(Split(h, '/')[i..], "/")) ensures x in Candidates(path, language) {
        ExpandAllMember(bases, x);
      }
    }
  }

  /** A clean relative path, already without the site name, is a candidate of itself. */
  lemma PathIsCandidate(path: string, language: string)
    requires !StartsWith(path, SitePrefix) && !IsAbsolute(path)
    requires forall k :: 0 <= k < |Split(path, '/')| ==> IsPart(Split(path, '/')[k])
    ensures path in Candidates(path, language)
  {
    SiteRelativeMeaning(path);
    var parts := Split(path, '/');
    FilterAll(parts, KeepPart());
    JoinSplit(path, '/');
    assert parts[0] != "";
    assert Join(parts, "/") != "" by {
      if |parts| > 1 {
        assert Join(parts, "/") == parts[0] + "/" + Join(parts[1..], "/");
      }
    }
    assert Str(path) == path;
    assert Prefixes(language)[0] == "";
    CandidatesOfPrefix(path, language, 0);
    ExpandMeaning(path);
  }

  // ---------------------------------------------------------------- guess_path

  /** The last step of `guess_path`: one of the candidates the site has, or None when it has none. */
  method PickKnown(candidates: set<string>, allPaths: set<string>) returns (guessed: Option<string>)
    ensures guessed.Some? ==> guessed.value in candidates && guessed.value in allPaths
    ensures guessed.None? ==> forall c :: c in candidates ==> c !in allPaths
  {
    guessed := None;
    var known := candidates * allPaths;
    if known != {} {
      var c :| c in known;
      guessed := Some(c);
    } else {
      forall c | c in candidates ensures c !in allPaths {
        assert c !in known;
      }
    }
  }

  /**
    `guess_path`, with the candidates of the intended site-name removal: no path-like text gives
    None; otherwise a candidate of the known paths, when there is one. Which one wins when several
    are known depends on the order of a Python set, so the model picks any of them.
  */
  method GuessPath(pathLike: Option<string>, language: string, rewrite: string -> string, allPaths: set<string>)
    returns (guessed: Option<string>)
    ensures pathLike.None? || pathLike.value == "" ==> guessed.None?
    ensures guessed.Some? ==> pathLike.Some? && guessed.value in allPaths && guessed.value in Candidates(rewrite(pathLike.value), language)
    ensures pathLike.Some? && pathLike.value != "" && guessed.None? ==>
      forall c :: c in Candidates(rewrite(pathLike.value), language) ==> c !in allPaths
  {
    if pathLike.None? || pathLike.value == "" {
      return None;
    }
    var candidates := GenPathCandidates(rewrite(pathLike.value), language);
    guessed := PickKnown(candidates, allPaths);
  }

  /** `guess_path` as written, over the candidates of `lstrip("k8s.io/")`. */
  method GuessPathAsWritten(pathLike: Option<string>, language: string, rewrite: string -> string, allPaths: set<string>)
    returns (guessed: Option<string>)
    ensures pathLike.None? || pathLike.value == "" ==> guessed.None?
    ensures guessed.Some? ==> pathLike.Some? && guessed.value in allPaths && guessed.value in CandidatesAsWritten(rewrite(pathLike.value), language)
    ensures pathLike.Some? && pathLike.value != "" && guessed.None? ==>
      forall c :: c in CandidatesAsWritten(rewrite(pathLike.value), language) ==> c !in allPaths
  {
    if pathLike.None? || pathLike.value == "" {
      return None;
    }
    var candidates := GenPathCandidatesAsWritten(rewrite(pathLike.value), language);
    guessed := PickKnown(candidates, allPaths);
  }
}

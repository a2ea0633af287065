/**
  scripts/python/url_builder.py: the site URL of an English markdown file of the Kubernetes
  website, in a given language. Docs and other pages get their URL from the path alone; blog
  posts follow Hugo's priority (front-matter slug and date, then front-matter `url`, then the
  file name, then the plain path), and only a URL the site has is returned. Reading the file
  for its front matter (`_parse_front_matter`) is left out: the parsed fields are a
  parameter, `None` when the file has no front matter or none of the fields.
*/
module UrlBuilder {
  import opened Wrappers
  import opened Strings
  import opened PosixPath

  const DefaultBaseUrl: string := "https://kubernetes.io"

  /** The fields `url`, `slug` and `date` found in a file's front matter. */
  type FrontMatter = Option<map<string, string>>

  /** `"" if language == "en" else f"{language}/"`. */
  function LangPrefix(language: string): string {
    if language == "en" then "" else language + "/"
  }

  /** `path.relative_to("content/en").parts`, or None where Python raises `ValueError`. */
  function RelativeToContentEn(path: string): (r: Option<seq<string>>)
    ensures r.Some? <==> !IsAbsolute(path) && |Parts(path)| >= 2 && Parts(path)[..2] == ["content", "en"]
    ensures r.Some? ==> Parts(path) == ["content", "en"] + r.value
  {
    var parts := Parts(path);
    if !IsAbsolute(path) && |parts| >= 2 && parts[0] == "content" && parts[1] == "en" then
      assert parts == ["content", "en"] + parts[2..];
      Some(parts[2..])
    else
      assert |parts| >= 2 ==> parts[..2] == [parts[0], parts[1]];
      None
  }

  /**
    The parts below `content/en` the URL is made of: None unless the path is a `.md` file
    below `content/en/` with at least two parts below it; a last `_index.md` part is dropped.
  */
  function UrlParts(englishPath: string): (r: Option<seq<string>>)
    ensures r.Some? ==> StartsWith(Str(englishPath), "content/en/") && Suffix(Name(englishPath)) == ".md"
    ensures r.Some? ==> |r.value| >= 1
  {
    if !StartsWith(Str(englishPath), "content/en/") || Suffix(Name(englishPath)) != ".md" then None
    else match RelativeToContentEn(englishPath)
      case None => None
      case Some(rel) =>
        if |rel| < 2 then None
        else if rel[|rel| - 1] in {"_index.md", "_index.html"} then Some(rel[..|rel| - 1])
        else Some(rel)
  }

  /** The path below the category, without the `.md` of its file. */
  function PagePath(parts: seq<string>): string
    requires |parts| >= 1
  {
    RemoveSuffix(Join(parts[1..], "/"), ".md")
  }

  /** `f"{base_url}/{lang_prefix}{tail}"`: every URL is the base, a slash, the language prefix and a tail. */
  function SiteUrl(baseUrl: string, prefix: string, tail: string): string {
    baseUrl + "/" + prefix + tail
  }

  /** The tail of a docs URL as the code builds it: `f"docs/{doc_path}/"`. */
  function DocsTailAsWritten(parts: seq<string>): string
    requires |parts| >= 1
  {
    "docs/" + PagePath(parts) + "/"
  }

  /**
    The tail of a docs URL without the empty segment: the section page itself
    (`docs/_index.md`) is `docs/`; every other page gets the tail the code builds.
  */
  function DocsTail(parts: seq<string>): (r: string)
    requires |parts| >= 1
    ensures PagePath(parts) != "" ==> r == DocsTailAsWritten(parts)
    ensures PagePath(parts) == "" ==> r + "/" == DocsTailAsWritten(parts)
  {
    if PagePath(parts) == "" then "docs/" else "docs/" + PagePath(parts) + "/"
  }

  /** A page of another category: its whole path, without checking that the site has it. */
  function OtherTail(parts: seq<string>): string {
    RemoveSuffix(Join(parts, "/"), ".md") + "/"
  }

  /** `re.match(r"(\d{4})-(\d{2})-(\d{2})", s)`: a leading date, as its three digit groups. */
  function DateParts(s: string): (r: Option<(string, string, string)>)
    ensures r.Some? ==> var (y, m, d) := r.value;
      && |y| == 4 && |m| == 2 && |d| == 2 && AllDigits(y) && AllDigits(m) && AllDigits(d)
      && StartsWith(s, y + "-" + m + "-" + d)
  {
    if |s| >= 10 && AllDigits(s[..4]) && s[4] == '-' && AllDigits(s[5..7]) && s[7] == '-' && AllDigits(s[8..10]) then
      assert s[..10] == s[..4] + "-" + s[5..7] + "-" + s[8..10];
      Some((s[..4], s[5..7], s[8..10]))
    else None
  }

  /** The text before the first newline: what `.+` matches. */
  function Line(s: string): (r: string)
    ensures StartsWith(s, r) && '\n' !in r
    ensures '\n' !in s ==> r == s
    decreases |s|
  {
    if s == [] || s[0] == '\n' then [] else [s[0]] + Line(s[1..])
  }

  /** `re.match(r"(\d{4})-(\d{2})-(\d{2})-(.+)", filename)`: a date, a dash, a non-empty title. */
  function FilenameParts(s: string): (r: Option<(string, string, string, string)>)
  {
    match DateParts(s)
    case None => None
    case Some((y, m, d)) =>
      if |s| > 11 && s[10] == '-' && Line(s[11..]) != "" then Some((y, m, d, Line(s[11..]))) else None
  }

  /** A dated blog URL; the day segment is left out when the day is `00`. */
  function DatedTail(y: string, m: string, d: string, leaf: string): string {
    "blog/" + y + "/" + m + "/" + (if d == "00" then "" else d + "/") + leaf + "/"
  }

  /** Priority 1: the front-matter slug under the front-matter date. */
  function SlugDateCandidate(fm: FrontMatter, prefix: string, baseUrl: string): Option<string> {
    if fm.Some? && "slug" in fm.value && "date" in fm.value then
      match DateParts(fm.value["date"])
      case Some((y, m, d)) => Some(SiteUrl(baseUrl, prefix, DatedTail(y, m, d, fm.value["slug"])))
      case None => None
    else None
  }

  /** Priority 2: the front-matter `url`, without its leading and trailing slashes. */
  function ExplicitCandidate(fm: FrontMatter, prefix: string, baseUrl: string): Option<string> {
    if fm.Some? && "url" in fm.value then Some(SiteUrl(baseUrl, prefix, Strip(fm.value["url"], {'/'}) + "/"))
    else None
  }

  /** Priority 3: a post under `_posts`, dated by its file name when the name starts with a date. */
  function FilenameCandidate(parts: seq<string>, prefix: string, baseUrl: string): Option<string> {
    if |parts| >= 3 && parts[1] == "_posts" then
      var filename := Stem(parts[2]);
      match FilenameParts(filename)
      case Some((y, m, d, title)) => Some(SiteUrl(baseUrl, prefix, DatedTail(y, m, d, title)))
      case None => Some(SiteUrl(baseUrl, prefix, "blog/" + filename + "/"))
    else None
  }

  /** Priority 4: the plain path below `blog`. */
  function CategoryCandidate(parts: seq<string>, prefix: string, baseUrl: string): string
    requires |parts| >= 1
  {
    var blogPath := PagePath(parts);
    SiteUrl(baseUrl, prefix, if blogPath != "" then "blog/" + blogPath + "/" else "blog/")
  }

  /** The blog candidates, highest priority first. */
  function BlogCandidates(parts: seq<string>, prefix: string, baseUrl: string, fm: FrontMatter): seq<Option<string>>
    requires |parts| >= 1
  {
    [SlugDateCandidate(fm, prefix, baseUrl), ExplicitCandidate(fm, prefix, baseUrl),
     FilenameCandidate(parts, prefix, baseUrl), Some(CategoryCandidate(parts, prefix, baseUrl))]
  }

  /** The first candidate the site has. */
  function FirstExisting(candidates: seq<Option<string>>, existingUrls: set<string>): (r: Option<string>)
    ensures r.Some? ==> r.value in existingUrls
    decreases |candidates|
  {
    if candidates == [] then None
    else if candidates[0].Some? && candidates[0].value in existingUrls then candidates[0]
    else FirstExisting(candidates[1..], existingUrls)
  }

  /** The first existing candidate is the one of the lowest index whose URL the site has. */
  lemma {:induction false} FirstExistingIsFirst(candidates: seq<Option<string>>, existingUrls: set<string>)
    ensures var r := FirstExisting(candidates, existingUrls);
      && (r.None? <==> forall k :: 0 <= k < |candidates| ==> candidates[k].None? || candidates[k].value !in existingUrls)
      && (r.Some? ==> exists k :: (0 <= k < |candidates| && candidates[k] == r
           && forall j :: 0 <= j < k ==> candidates[j].None? || candidates[j].value !in existingUrls))
    decreases |candidates|
  {
    if candidates != [] {
      var rest := candidates[1..];
      FirstExistingIsFirst(rest, existingUrls);
      var r := FirstExisting(candidates, existingUrls);
      if !(candidates[0].Some? && candidates[0].value in existingUrls) {
        assert r == FirstExisting(rest, existingUrls);
        forall k | 0 <= k < |rest| ensures rest[k] == candidates[k + 1] {}
        if r.Some? {
          var k :| 0 <= k < |rest| && rest[k] == r
            && forall j :: 0 <= j < k ==> rest[j].None? || rest[j].value !in existingUrls;
          assert candidates[k + 1] == r;
          forall j | 0 <= j < k + 1 ensures candidates[j].None? || candidates[j].value !in existingUrls {
            if j > 0 {
              assert candidates[j] == rest[j - 1];
            }
          }
        } else {
          forall k | 0 <= k < |candidates| ensures candidates[k].None? || candidates[k].value !in existingUrls {
            if k > 0 {
              assert candidates[k] == rest[k - 1];
            }
          }
        }
      } else {
        assert candidates[0] == r;
      }
    }
  }

  /** `_build_blog_url`: the candidates in Hugo's priority order; only one the site has is returned. */
  function BlogUrl(parts: seq<string>, existingUrls: set<string>, prefix: string, baseUrl: string, fm: FrontMatter): (r: Option<string>)
    requires |parts| >= 1
    ensures r == FirstExisting(BlogCandidates(parts, prefix, baseUrl, fm), existingUrls)
    ensures r.Some? ==> r.value in existingUrls
  {
    var slugDate := SlugDateCandidate(fm, prefix, baseUrl);
    var explicit := ExplicitCandidate(fm, prefix, baseUrl);
    var byName := FilenameCandidate(parts, prefix, baseUrl);
    var url := CategoryCandidate(parts, prefix, baseUrl);
    FirstOfFour(slugDate, explicit, byName, url, existingUrls);
    if slugDate.Some? && slugDate.value in existingUrls then slugDate
    else if explicit.Some? && explicit.value in existingUrls then explicit
    else if byName.Some? && byName.value in existingUrls then byName
    else if url in existingUrls then Some(url) else None
  }

  /** The first existing of four candidates, the last of which is always present. */
  lemma FirstOfFour(a: Option<string>, b: Option<string>, c: Option<string>, d: string, existingUrls: set<string>)
    ensures FirstExisting([a, b, c, Some(d)], existingUrls) ==
      if a.Some? && a.value in existingUrls then a
      else if b.Some? && b.value in existingUrls then b
      else if c.Some? && c.value in existingUrls then c
      else if d in existingUrls then Some(d) else None
  {
    var s1: seq<Option<string>> := [Some(d)];
    var s2 := [c] + s1;
    var s3 := [b] + s2;
    var s4 := [a] + s3;
    assert s1[1..] == [];
    assert s2[1..] == s1;
    assert s3[1..] == s2;
    assert s4[1..] == s3;
    assert s4 == [a, b, c, Some(d)];
    var e := existingUrls;
    assert FirstExisting(s1, e) == if d in e then Some(d) else None;
    assert FirstExisting(s2, e) == if c.Some? && c.value in e then c else FirstExisting(s1, e);
    assert FirstExisting(s3, e) == if b.Some? && b.value in e then b else FirstExisting(s2, e);
    assert FirstExisting(s4, e) == if a.Some? && a.value in e then a else FirstExisting(s3, e);
  }

  /** `build_url`. */
  function BuildUrl(englishPath: string, language: string, existingUrls: set<string>, baseUrl: string, fm: FrontMatter): Option<string> {
    match UrlParts(englishPath)
    case None => None
    case Some(parts) =>
      var prefix := LangPrefix(language);
      if parts[0] == "docs" then Some(SiteUrl(baseUrl, prefix, DocsTail(parts)))
      else if parts[0] == "blog" then BlogUrl(parts, existingUrls, prefix, baseUrl, fm)
      else Some(SiteUrl(baseUrl, prefix, OtherTail(parts)))
  }

  /** `build_url` as written: a docs page ends in `f"docs/{doc_path}/"` even when `doc_path` is empty. */
  function BuildUrlAsWritten(englishPath: string, language: string, existingUrls: set<string>, baseUrl: string, fm: FrontMatter): Option<string> {
    match UrlParts(englishPath)
    case None => None
    case Some(parts) =>
      if parts[0] == "docs" then Some(SiteUrl(baseUrl, LangPrefix(language), DocsTailAsWritten(parts)))
      else BuildUrl(englishPath, language, existingUrls, baseUrl, fm)
  }

  /**
    The written URL differs from the intended one exactly for a docs page whose page path is
    empty, and there it carries one slash too many.
  */
  lemma BuildUrlAsWrittenDiffers(englishPath: string, language: string, existingUrls: set<string>, baseUrl: string, fm: FrontMatter)
    ensures var w := BuildUrlAsWritten(englishPath, language, existingUrls, baseUrl, fm);
      var r := BuildUrl(englishPath, language, existingUrls, baseUrl, fm);
      w != r <==> UrlParts(englishPath).Some? && UrlParts(englishPath).value[0] == "docs" && PagePath(UrlParts(englishPath).value) == ""
    ensures var w := BuildUrlAsWritten(englishPath, language, existingUrls, baseUrl, fm);
      var r := BuildUrl(englishPath, language, existingUrls, baseUrl, fm);
      w != r ==> r.Some? && w == Some(r.value + "/")
  {
    match UrlParts(englishPath)
    case None =>
    case Some(parts) =>
      if parts[0] == "docs" && PagePath(parts) == "" {
        var prefix := LangPrefix(language);
        assert DocsTailAsWritten(parts) == DocsTail(parts) + "/";
        assert SiteUrl(baseUrl, prefix, DocsTail(parts) + "/") == SiteUrl(baseUrl, prefix, DocsTail(parts)) + "/";
      }
  }

  /** A URL is only built for a Markdown file under `content/en/`, and a blog URL is always one the site has. */
  lemma BuildUrlChecks(englishPath: string, language: string, existingUrls: set<string>, baseUrl: string, fm: FrontMatter)
    ensures var r := BuildUrl(englishPath, language, existingUrls, baseUrl, fm);
      && (r.Some? ==> StartsWith(Str(englishPath), "content/en/") && Suffix(Name(englishPath)) == ".md")
      && (UrlParts(englishPath).None? ==> r.None?)
      && (UrlParts(englishPath).Some? && UrlParts(englishPath).value[0] == "blog" && r.Some? ==> r.value in existingUrls)
  {
  }


  /** A relative path built from parts below `content/en`: its string, its parts, its name. */
  lemma MarkdownPath(parts: seq<string>)
    requires |parts| >= 3 && parts[0] == "content" && parts[1] == "en"
    requires forall k :: 0 <= k < |parts| ==> IsPart(parts[k]) && '/' !in parts[k]
    ensures Str(Join(parts, "/")) == Join(parts, "/")
    ensures StartsWith(Join(parts, "/"), "content/en/")
    ensures RelativeToContentEn(Join(parts, "/")) == Some(parts[2..])
    ensures Name(Join(parts, "/")) == parts[|parts| - 1]
  {
    var p := Join(parts, "/");
    assert Parts(p) == parts && !IsAbsolute(p) by {
      PartsOfJoin(parts);
      ContentEnPrefix(parts);
    }
    assert StartsWith(p, "content/en/") by {
      ContentEnPrefix(parts);
    }
  }

  lemma ContentEnPrefix(parts: seq<string>)
    requires |parts| >= 3 && parts[0] == "content" && parts[1] == "en"
    ensures StartsWith(Join(parts, "/"), "content/en/") && !IsAbsolute(Join(parts, "/"))
  {
    var p := Join(parts, "/");
    var y := Join(parts[1..], "/");
    assert p == "content" + "/" + y;
    assert parts[1..][1..] == parts[2..];
    assert y == "en" + "/" + Join(parts[2..], "/");
    assert y[..3] == "en/";
    assert p[..8] == "content/" && p[8..11] == y[..3];
    assert p[..11] == p[..8] + p[8..11];
  }

  /** A file `<stem>.md` has the suffix `.md` and the stem `<stem>`. */
  lemma MarkdownName(stem: string)
    requires stem != []
    ensures Suffix(stem + ".md") == ".md" && Stem(stem + ".md") == stem
  {
    var name := stem + ".md";
    assert name[..|name| - 1] == stem + ".m";
    assert (stem + ".m")[..|stem| + 1] == stem + ".";
    assert LastDot(stem + ".") == |stem|;
    assert LastDot(stem + ".m") == |stem|;
    assert LastDot(name) == |stem|;
    assert name[|stem|..] == ".md";
    assert name[..|name| - 3] == stem;
  }

  /** The path check already guarantees `content/en` is a prefix: `relative_to` never raises there. */
  lemma RelativeToNeverFails(englishPath: string)
    requires StartsWith(Str(englishPath), "content/en/")
    ensures RelativeToContentEn(englishPath).Some?
  {
    PrefixGivesParts(englishPath);
  }

  /** The string form starts with `content/en/` only when the first two parts are `content` and `en`. */
  lemma PrefixGivesParts(englishPath: string)
    requires StartsWith(Str(englishPath), "content/en/")
    ensures !IsAbsolute(englishPath)
    ensures |Parts(englishPath)| >= 3 && Parts(englishPath)[0] == "content" && Parts(englishPath)[1] == "en"
  {
    PrefixGivesJoin(englishPath);
    ContentEnLiteral();
    LeadingParts(Parts(englishPath), "content", "en");
  }

  /** A string form that starts with `c` is that of a relative path with parts, joined by `/`. */
  lemma PrefixGivesJoin(englishPath: string)
    requires StartsWith(Str(englishPath), "content/en/")
    ensures !IsAbsolute(englishPath) && Parts(englishPath) != []
    ensures StartsWith(Join(Parts(englishPath), "/"), "content/en/")
  {
    var s := Str(englishPath);
    assert s[0] == 'c' && s != ".";
    StrRelative(englishPath);
  }

  lemma ContentEnLiteral()
    ensures "content/en/" == "content" + "/" + ("en" + "/" + "")
  {
  }

  /** Slash-free parts whose join starts with `a/b/`: the first two parts are `a` and `b`, and more follow. */
  lemma LeadingParts(parts: seq<string>, a: string, b: string)
    requires forall k :: 0 <= k < |parts| ==> '/' !in parts[k]
    requires '/' !in a && '/' !in b
    requires StartsWith(Join(parts, "/"), a + "/" + (b + "/" + ""))
    ensures |parts| >= 3 && parts[0] == a && parts[1] == b
  {
    FirstPart(parts, a, b + "/" + "");
    FirstPart(parts[1..], b, "");
  }

  /** Slash-free parts whose join starts with `w/`: the first part is `w` and more parts follow. */
  lemma FirstPart(parts: seq<string>, w: string, rest: string)
    requires forall k :: 0 <= k < |parts| ==> '/' !in parts[k]
    requires '/' !in w
    requires StartsWith(Join(parts, "/"), w + "/" + rest)
    ensures |parts| >= 2 && parts[0] == w && StartsWith(Join(parts[1..], "/"), rest)
  {
    var s := Join(parts, "/");
    var u := w + "/" + rest;
    assert s[|w|] == '/' by {
      assert s[..|u|] == u;
      assert s[|w|] == s[..|u|][|w|];
    }
    assert |parts| >= 2 by {
      ShortJoinHasNoSlash(parts);
    }
    assert s == parts[0] + "/" + Join(parts[1..], "/");
    SlashAfterPart(parts[0], Join(parts[1..], "/"), w, rest);
  }

  /** Zero parts or one part join to a string without a slash. */
  lemma ShortJoinHasNoSlash(parts: seq<string>)
    requires forall k :: 0 <= k < |parts| ==> '/' !in parts[k]
    ensures |parts| <= 1 ==> '/' !in Join(parts, "/")
  {
  }

  /** A string made of a slash-free part and a slash starts with `w/` only when the part is `w`. */
  lemma SlashAfterPart(a: string, b: string, w: string, rest: string)
    requires '/' !in a && '/' !in w
    requires StartsWith(a + "/" + b, w + "/" + rest)
    ensures a == w && StartsWith(b, rest)
  {
    var t := a + "/" + b;
    var u := w + "/" + rest;
    assert t[..|u|] == u;
    assert forall i :: 0 <= i < |a| ==> t[i] == a[i] && t[i] != '/';
    assert forall i :: 0 <= i < |w| ==> t[i] == w[i] && t[i] != '/';
    assert t[|a|] == '/' && t[|w|] == '/';
    assert |a| == |w|;
    assert t[..|a|] == a && u[..|w|] == w;
    assert t[|a| + 1..] == b && u[|w| + 1..] == rest;
    assert b[..|rest|] == t[|a| + 1..|a| + 1 + |rest|];
  }

  /** Dropping `.md` from the joined parts drops it from the last part. */
  lemma RemoveMd(init: seq<string>, stem: string)
    ensures RemoveSuffix(Join(init + [stem + ".md"], "/"), ".md") == Join(init + [stem], "/")
  {
    if init == [] {
      assert [stem + ".md"] == init + [stem + ".md"] && [stem] == init + [stem];
      assert (stem + ".md")[|stem|..] == ".md";
    } else {
      JoinSnoc(init, stem + ".md", "/");
      JoinSnoc(init, stem, "/");
      var x := Join(init, "/") + "/" + stem;
      assert Join(init, "/") + "/" + (stem + ".md") == x + ".md";
      assert (x + ".md")[|x|..] == ".md";
      assert (x + ".md")[..|x|] == x;
    }
  }

  /** Joined parts whose last part is non-empty are non-empty. */
  lemma JoinLastNonEmpty(init: seq<string>, last: string)
    requires last != ""
    ensures Join(init + [last], "/") != ""
  {
    if init == [] {
      assert init + [last] == [last];
    } else {
      JoinSnoc(init, last, "/");
    }
  }

  /** The URL parts of a relative `.md` path below `content/en`, given its parts. */
  lemma UrlPartsOfParts(p: string, parts: seq<string>)
    requires !IsAbsolute(p) && Parts(p) == parts
    requires |parts| >= 4 && parts[0] == "content" && parts[1] == "en" && Suffix(parts[|parts| - 1]) == ".md"
    ensures UrlParts(p) == Some(if parts[|parts| - 1] in {"_index.md", "_index.html"} then parts[2..|parts| - 1] else parts[2..])
  {
    assert Str(p) == Join(parts, "/") by {
      StrRelative(p);
    }
    assert StartsWith(Str(p), "content/en/") by {
      ContentEnPrefix(parts);
    }
    assert Name(p) == parts[|parts| - 1];
    assert RelativeToContentEn(p) == Some(parts[2..]);
    assert parts[2..][|parts| - 3] == parts[|parts| - 1];
    assert parts[2..][..|parts| - 3] == parts[2..|parts| - 1];
  }

  /**
    A docs page `content/en/docs/<dirs>/<stem>.md` has the URL `<base>/<prefix>docs/<dirs>/<stem>/`,
    whatever the site has and whatever its front matter says.
  */
  lemma DocsPageUrl(p: string, stem: string, language: string, existingUrls: set<string>, baseUrl: string, fm: FrontMatter)
    requires !IsAbsolute(p)
    requires |Parts(p)| >= 4 && Parts(p)[0] == "content" && Parts(p)[1] == "en" && Parts(p)[2] == "docs"
    requires Parts(p)[|Parts(p)| - 1] == stem + ".md" && stem != "" && stem != "_index"
    ensures var dirs := Parts(p)[3..|Parts(p)| - 1];
      BuildUrl(p, language, existingUrls, baseUrl, fm) == Some(SiteUrl(baseUrl, LangPrefix(language), "docs/" + Join(dirs + [stem], "/") + "/"))
  {
    DocsPageParts(p, stem);
  }

  /** The URL parts of a docs page and the path below `docs` they give. */
  lemma DocsPageParts(p: string, stem: string)
    requires !IsAbsolute(p)
    requires |Parts(p)| >= 4 && Parts(p)[0] == "content" && Parts(p)[1] == "en" && Parts(p)[2] == "docs"
    requires Parts(p)[|Parts(p)| - 1] == stem + ".md" && stem != "" && stem != "_index"
    ensures UrlParts(p) == Some(Parts(p)[2..])
    ensures PagePath(Parts(p)[2..]) == Join(Parts(p)[3..|Parts(p)| - 1] + [stem], "/") != ""
  {
    var parts := Parts(p);
    var n := |parts|;
    var name := stem + ".md";
    var dirs := parts[3..n - 1];
    assert name != "_index.md" && name != "_index.html" by {
      assert name[..|stem|] == stem;
      assert |name| == 11 ==> name[10] == 'd';
    }
    var rel := parts[2..];
    assert UrlParts(p) == Some(rel) by {
      MarkdownName(stem);
      UrlPartsOfParts(p, parts);
    }
    assert rel[1..] == dirs + [name] by {
      assert rel[1..] == parts[3..];
      SliceSnoc(parts, 3);
    }
    assert PagePath(rel) == Join(dirs + [stem], "/") != "" by {
      RemoveMd(dirs, stem);
      JoinLastNonEmpty(dirs, stem);
    }
  }

  lemma SliceSnoc<T>(s: seq<T>, i: nat)
    requires i < |s|
    ensures s[i..] == s[i..|s| - 1] + [s[|s| - 1]]
  {
  }

  lemma IndexLiteral()
    ensures "_index" + ".md" == "_index.md"
  {
  }

  /**
    The docs section page `content/en/docs/_index.md` gets the tail `docs//` as written, with an
    empty last segment, and `<base>/<prefix>docs/` with the empty path left out.
  */
  lemma DocsSectionUrl(p: string, language: string, existingUrls: set<string>, baseUrl: string, fm: FrontMatter)
    requires !IsAbsolute(p)
    requires |Parts(p)| == 4 && Parts(p)[0] == "content" && Parts(p)[1] == "en" && Parts(p)[2] == "docs"
    requires Parts(p)[3] == "_index.md"
    ensures UrlParts(p) == Some(["docs"])
    ensures DocsTailAsWritten(["docs"]) == "docs//"
    ensures BuildUrlAsWritten(p, language, existingUrls, baseUrl, fm) == Some(SiteUrl(baseUrl, LangPrefix(language), "docs//"))
    ensures BuildUrl(p, language, existingUrls, baseUrl, fm) == Some(SiteUrl(baseUrl, LangPrefix(language), "docs/"))
  {
    DocsSectionParts(p);
    assert ["docs"][1..] == [];
    assert PagePath(["docs"]) == "";
  }

  lemma DocsSectionParts(p: string)
    requires !IsAbsolute(p)
    requires |Parts(p)| == 4 && Parts(p)[0] == "content" && Parts(p)[1] == "en" && Parts(p)[2] == "docs"
    requires Parts(p)[3] == "_index.md"
    ensures UrlParts(p) == Some(["docs"])
  {
    var parts := Parts(p);
    IndexLiteral();
    MarkdownName("_index");
    UrlPartsOfParts(p, parts);
    assert parts[2..3] == ["docs"];
  }

  /** A file name `<yyyy>-<mm>-<dd>-<title>` is read back as its four groups. */
  lemma FilenamePartsOf(y: string, m: string, d: string, title: string)
    requires |y| == 4 && |m| == 2 && |d| == 2 && AllDigits(y) && AllDigits(m) && AllDigits(d)
    requires title != "" && '\n' !in title
    ensures FilenameParts(y + "-" + m + "-" + d + "-" + title) == Some((y, m, d, title))
  {
    var s := y + "-" + m + "-" + d + "-" + title;
    assert s[..4] == y && s[4] == '-' && s[5..7] == m && s[7] == '-' && s[8..10] == d && s[10] == '-';
    assert s[11..] == title;
  }

  /**
    A post `content/en/blog/_posts/<yyyy>-<mm>-<dd>-<title>.md` without front matter gets the
    URL dated by its file name (without the day when it is `00`) when the site has that URL.
  */
  lemma DatedPostUrl(p: string, y: string, m: string, d: string, title: string, language: string, existingUrls: set<string>, baseUrl: string)
    requires !IsAbsolute(p)
    requires |Parts(p)| == 5 && Parts(p)[0] == "content" && Parts(p)[1] == "en" && Parts(p)[2] == "blog" && Parts(p)[3] == "_posts"
    requires Parts(p)[4] == y + "-" + m + "-" + d + "-" + title + ".md"
    requires |y| == 4 && |m| == 2 && |d| == 2 && AllDigits(y) && AllDigits(m) && AllDigits(d)
    requires title != "" && '\n' !in title
    requires SiteUrl(baseUrl, LangPrefix(language), DatedTail(y, m, d, title)) in existingUrls
    ensures BuildUrl(p, language, existingUrls, baseUrl, None) == Some(SiteUrl(baseUrl, LangPrefix(language), DatedTail(y, m, d, title)))
  {
    var stem := y + "-" + m + "-" + d + "-" + title;
    PostParts(p, stem);
    var parts := Parts(p)[2..];
    var prefix := LangPrefix(language);
    DatedCandidate(parts, stem, y, m, d, title, prefix, baseUrl);
    BlogWithoutFrontMatter(parts, existingUrls, prefix, baseUrl);
    assert BuildUrl(p, language, existingUrls, baseUrl, None) == BlogUrl(parts, existingUrls, prefix, baseUrl, None);
  }

  /** Without front matter, a known file-name candidate is the blog URL. */
  lemma BlogWithoutFrontMatter(parts: seq<string>, existingUrls: set<string>, prefix: string, baseUrl: string)
    requires |parts| >= 1
    ensures var c := FilenameCandidate(parts, prefix, baseUrl);
      c.Some? && c.value in existingUrls ==> BlogUrl(parts, existingUrls, prefix, baseUrl, None) == c
  {
  }

  /** The file-name candidate of a dated post is its dated URL. */
  lemma DatedCandidate(parts: seq<string>, stem: string, y: string, m: string, d: string, title: string, prefix: string, baseUrl: string)
    requires |parts| >= 3 && parts[1] == "_posts" && parts[2] == stem + ".md"
    requires stem == y + "-" + m + "-" + d + "-" + title
    requires |y| == 4 && |m| == 2 && |d| == 2 && AllDigits(y) && AllDigits(m) && AllDigits(d)
    requires title != "" && '\n' !in title
    ensures FilenameCandidate(parts, prefix, baseUrl) == Some(SiteUrl(baseUrl, prefix, DatedTail(y, m, d, title)))
  {
    assert Stem(stem + ".md") == stem by {
      MarkdownName(stem);
    }
    FilenamePartsOf(y, m, d, title);
  }

  /** The URL parts of a post under `_posts` whose file name is longer than `_index.html`. */
  lemma PostParts(p: string, stem: string)
    requires !IsAbsolute(p)
    requires |Parts(p)| == 5 && Parts(p)[0] == "content" && Parts(p)[1] == "en" && Parts(p)[2] == "blog" && Parts(p)[3] == "_posts"
    requires Parts(p)[4] == stem + ".md" && |stem| > 8
    ensures UrlParts(p) == Some(Parts(p)[2..]) && Parts(p)[2..][1] == "_posts" && Parts(p)[2..][2] == stem + ".md"
  {
    MarkdownName(stem);
    assert stem + ".md" != "_index.md" && stem + ".md" != "_index.html" by {
      assert |stem + ".md"| > 11;
    }
    UrlPartsOfParts(p, Parts(p));
  }

  /** Docs pages and pages of other categories do not depend on what the site has or on front matter. */
  lemma NonBlogIgnoresSite(englishPath: string, language: string, e1: set<string>, e2: set<string>, baseUrl: string, f1: FrontMatter, f2: FrontMatter)
    requires UrlParts(englishPath).Some? && UrlParts(englishPath).value[0] != "blog"
    ensures BuildUrl(englishPath, language, e1, baseUrl, f1).Some?
    ensures BuildUrl(englishPath, language, e1, baseUrl, f1) == BuildUrl(englishPath, language, e2, baseUrl, f2)
  {
  }

  /**
    Outside the blog, a localized URL is the English one with `<language>/` inserted after the
    base URL and its slash.
  */
  lemma LocalizedUrl(englishPath: string, language: string, existingUrls: set<string>, baseUrl: string, fm: FrontMatter)
    requires UrlParts(englishPath).Some? && UrlParts(englishPath).value[0] != "blog"
    ensures var en := BuildUrl(englishPath, "en", existingUrls, baseUrl, fm);
      && en.Some? && StartsWith(en.value, baseUrl + "/")
      && BuildUrl(englishPath, language, existingUrls, baseUrl, fm) == Some(baseUrl + "/" + LangPrefix(language) + en.value[|baseUrl| + 1..])
  {
    var parts := UrlParts(englishPath).value;
    var tail := if parts[0] == "docs" then DocsTail(parts) else OtherTail(parts);
    var en := BuildUrl(englishPath, "en", existingUrls, baseUrl, fm);
    assert en.value == SiteUrl(baseUrl, "", tail);
    SiteUrlParts(baseUrl, tail);
  }

  /** The English URL of a tail is the base, a slash and the tail. */
  lemma SiteUrlParts(b: string, tail: string)
    ensures var u := SiteUrl(b, "", tail);
      StartsWith(u, b + "/") && u[|b| + 1..] == tail
  {
    var u := SiteUrl(b, "", tail);
    assert u == (b + "/") + tail;
    assert u[..|b| + 1] == b + "/";
  }
}

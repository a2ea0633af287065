/**
  The preferred-language menu (web/src/features/language/LanguageSelector.tsx and its older
  twin web/src/features/LanguageSelector.tsx): the preference starts from the browser's
  languages (or from "en"), picking a language toggles it against English, and it can be
  cleared. The browser's language list is a parameter; persistence is left out.
*/
module LanguageSelector {
  import opened Wrappers
  import opened Strings
  import opened Translations
  import opened LanguageCodes

  /** `browserLang.split('-')[0]`: the primary subtag. */
  function BaseLanguage(tag: string): (r: string)
    ensures StartsWith(tag, r) && '-' !in r
  {
    SplitHead(tag, '-')
  }

  /** The first piece of `Split(s, c)`, with the fact that it is a prefix. */
  function SplitHead(s: string, c: char): (r: string)
    ensures r == Split(s, c)[0]
    ensures StartsWith(s, r) && c !in r
    ensures |r| < |s| ==> s[|r|] == c
    decreases |s|
  {
    if s == [] || s[0] == c then [] else [s[0]] + SplitHead(s[1..], c)
  }

  /** `groups` lists the tag itself or its primary subtag. */
  predicate Recognised(groups: seq<(string, seq<string>)>, tag: string) {
    LookupTag(groups, tag).Some? || LookupTag(groups, BaseLanguage(tag)).Some?
  }

  /** The code for a recognised tag: the exact entry wins over the primary subtag's. */
  function Resolve(groups: seq<(string, seq<string>)>, tag: string): string
    requires Recognised(groups, tag)
  {
    if LookupTag(groups, tag).Some? then LookupTag(groups, tag).value
    else LookupTag(groups, BaseLanguage(tag)).value
  }

  /** `tags[i]` is recognised and no earlier tag is. */
  predicate FirstRecognised(groups: seq<(string, seq<string>)>, tags: seq<string>, i: nat)
    requires i < |tags|
  {
    Recognised(groups, tags[i]) && forall j :: 0 <= j < i ==> !Recognised(groups, tags[j])
  }

  /** `r` is what the detection yields for `tags`: the first recognised tag's code, else "en". */
  predicate DetectedFrom(groups: seq<(string, seq<string>)>, tags: seq<string>, r: string) {
    && ((forall i :: 0 <= i < |tags| ==> !Recognised(groups, tags[i])) ==> r == "en")
    && (forall i :: 0 <= i < |tags| && FirstRecognised(groups, tags, i) ==> r == Resolve(groups, tags[i]))
  }

  /** A recognised tag with no recognised tag before it is the only first recognised one. */
  lemma FirstIsUnique(groups: seq<(string, seq<string>)>, tags: seq<string>, k: nat)
    requires k < |tags| && Recognised(groups, tags[k])
    requires forall j :: 0 <= j < k ==> !Recognised(groups, tags[j])
    ensures forall i :: 0 <= i < |tags| && FirstRecognised(groups, tags, i) <==> i == k
  {
  }

  /** The detection loop over any table whose groups target `codes`. */
  method DetectWith(groups: seq<(string, seq<string>)>, codes: seq<string>, tags: seq<string>) returns (r: string)
    requires GroupsTarget(groups, codes) && "en" in codes
    ensures r in codes
    ensures DetectedFrom(groups, tags, r)
  {
    var k := 0;
    while k < |tags|
      invariant 0 <= k <= |tags|
      invariant forall j :: 0 <= j < k ==> !Recognised(groups, tags[j])
    {
      var tag := tags[k];
      var exact := LookupTag(groups, tag);
      if exact.Some? {
        LookupTagTargets(groups, codes, tag);
        FirstIsUnique(groups, tags, k);
        return exact.value;
      }
      var base := BaseLanguage(tag);
      var fallback := LookupTag(groups, base);
      if fallback.Some? {
        LookupTagTargets(groups, codes, base);
        FirstIsUnique(groups, tags, k);
        return fallback.value;
      }
      k := k + 1;
    }
    return "en";
  }

  /** `detectBrowserLanguage`, over `navigator.languages || [navigator.language]` given as `tags`. */
  method DetectBrowserLanguage(tags: seq<string>) returns (r: string)
    ensures IsCatalogCode(r)
    ensures DetectedFrom(BrowserLanguageGroups, tags, r)
  {
    GroupsFollowCatalog();
    EnglishInCatalog();
    r := DetectWith(BrowserLanguageGroups, Codes(Catalog), tags);
  }

  /** The stored preference (`useLocalStorage<LanguageCode | null>`). */
  class PreferredLanguage {
    var preferred: Option<string>

    /** Only catalog languages (or nothing) are ever stored. */
    ghost predicate Valid()
      reads this
    {
      preferred.Some? ==> IsCatalogCode(preferred.value)
    }

    /** The current menu: the default is the detected browser language. */
    constructor FromBrowser(tags: seq<string>)
      ensures Valid()
      ensures preferred.Some? && DetectedFrom(BrowserLanguageGroups, tags, preferred.value)
    {
      var detected := DetectBrowserLanguage(tags);
      preferred := Some(detected);
    }

    /** The older menu: the default is English. */
    constructor WithDefault()
      ensures Valid()
      ensures preferred == Some("en")
    {
      EnglishInCatalog();
      preferred := Some("en");
    }

    /** `handleLanguageSelect`: picking the current preference falls back to English. */
    method Select(lang: string)
      requires Valid() && IsCatalogCode(lang)
      modifies this
      ensures Valid()
      ensures preferred == Some(if old(preferred) == Some(lang) then "en" else lang)
    {
      if preferred == Some(lang) {
        EnglishInCatalog();
        preferred := Some("en");
      } else {
        preferred := Some(lang);
      }
    }

    /** "Clear Language". */
    method Clear()
      modifies this
      ensures Valid()
      ensures preferred == None
    {
      preferred := None;
    }

    /** The check mark next to a menu item. */
    predicate Checked(lang: string)
      reads this
    {
      preferred == Some(lang)
    }

    /** The "Clear Language" item is shown while a preference is stored. */
    predicate ClearShown()
      reads this
    {
      preferred.Some?
    }
  }
}

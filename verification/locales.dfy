/**
 The locale catalogue: locale ids and the paths of their files, the default
 locale, the rule that says which translation keys hold HTML, and the
 catalogue itself as built from the parsed locale files.
 */
module Locales {
  import opened Optional
  import opened Text
  import opened JsonValue
  import opened Dict
  import opened Flatten

  /** The last key segments that name a plural form; the key before one of them names the translation. */
  const PluralizationKeys: seq<string> := ["zero", "one", "two", "other"]

  /** `path.basename(file, ".json")`: the last `/`-separated segment, less a `.json` suffix that is not all of it. */
  function LocaleId(file: string): (id: string)
    ensures '/' !in id
  {
    var base := LastPiece(file, '/');
    if file == ".json" then ""
    else if |base| > 5 && EndsWith(base, ".json") then base[..|base| - 5]
    else base
  }

  /** `localePath(locale)`: the file a locale id is read from, under the theme root. */
  function LocalePath(root: string, id: string): string {
    root + "/locales" + "/" + id + ".json"
  }

  /** A locale's file name gives back its id. */
  lemma LocaleIdOfPath(root: string, id: string)
    requires id != "" && '/' !in id
    ensures LocaleId(LocalePath(root, id)) == id
  {
    var base := id + ".json";
    assert '/' !in base by {
      assert forall k :: 0 <= k < |base| ==> base[k] == if k < |id| then id[k] else ".json"[k - |id|];
    }
    assert LocalePath(root, id) == (root + "/locales") + ['/'] + base;
    SplitAfterLast(root + "/locales", '/', base);
    assert base[..|base| - 5] == id;
    assert base[|base| - 5..] == ".json";
  }

  /** `lintRuleURL(rule)`: the documentation page of an htmllint rule. */
  function LintRuleURL(rule: string): (url: string)
    ensures HasAt(url, 0, "https://github.com/htmllint/htmllint/wiki/Options#")
    ensures EndsWith(url, rule) && |url| == |"https://github.com/htmllint/htmllint/wiki/Options#"| + |rule|
  {
    "https://github.com/htmllint/htmllint/wiki/Options#" + rule
  }

  /** `Object.keys(translations).find(k => k.includes(".default"))`. */
  function DefaultLocale(ids: seq<string>): (r: Option<string>)
    ensures r.Some? ==> exists i :: 0 <= i < |ids| && ids[i] == r.value &&
                                    Contains(ids[i], ".default") &&
                                    forall j :: 0 <= j < i ==> !Contains(ids[j], ".default")
    ensures r.None? ==> forall i :: 0 <= i < |ids| ==> !Contains(ids[i], ".default")
    decreases |ids|
  {
    if |ids| == 0 then None
    else if Contains(ids[0], ".default") then Some(ids[0])
    else
      var r := DefaultLocale(ids[1..]);
      assert forall i :: 1 <= i < |ids| ==> ids[i] == ids[1..][i - 1];
      r
  }

  /** `isHTMLKey(key)`. */
  predicate IsHTMLKey(key: string) {
    var parts := Split(key, '.');
    var last := parts[|parts| - 1];
    if last in PluralizationKeys then |parts| >= 2 && EndsWith(parts[|parts| - 2], "_html")
    else EndsWith(last, "_html")
  }

  /** The key ends with `_html`, or with `_html.` followed by a plural form. */
  predicate HasHTMLSuffix(key: string) {
    || EndsWith(key, "_html")
    || EndsWith(key, "_html.zero")
    || EndsWith(key, "_html.one")
    || EndsWith(key, "_html.two")
    || EndsWith(key, "_html.other")
  }

  /** A key ending with `_html.` and a separator-free word has that word as its last segment and a segment ending with `_html` before it. */
  lemma HTMLPluralSuffixParts(key: string, p: string)
    requires '.' !in p
    requires EndsWith(key, "_html." + p)
    ensures var parts := Split(key, '.');
      |parts| >= 2 && parts[|parts| - 1] == p && EndsWith(parts[|parts| - 2], "_html")
  {
    var t := "_html." + p;
    var front := key[..|key| - |t|] + "_html";
    assert key == front + ['.'] + p;
    SplitAfterLast(front, '.', p);
    LastPieceSuffix(front, '.', "_html");
  }

  /** Conversely, a last segment after a segment ending with `_html` makes the key end with `_html.` and that segment. */
  lemma HTMLPluralPartsSuffix(key: string)
    requires |Split(key, '.')| >= 2
    requires var parts := Split(key, '.'); EndsWith(parts[|parts| - 2], "_html")
    ensures var parts := Split(key, '.'); EndsWith(key, "_html." + parts[|parts| - 1])
  {
    var parts := Split(key, '.');
    var n := |parts|;
    var p := parts[n - 1];
    SplitInit(key, '.');
    var init := Join(parts[..n - 1], ['.']);
    assert key == init + ['.'] + p;
    assert Split(init, '.') == parts[..n - 1];
    assert parts[..n - 1][n - 2] == parts[n - 2];
    assert LastPiece(init, '.') == parts[n - 2];
    LastPieceSuffix(init, '.', "_html");
    SuffixThenSegment(init, p);
  }

  lemma SuffixThenSegment(init: string, p: string)
    requires EndsWith(init, "_html")
    ensures EndsWith(init + ['.'] + p, "_html." + p)
  {
    var key := init + ['.'] + p;
    var t := "_html." + p;
    assert key[|key| - |t|..] == init[|init| - 5..] + ['.'] + p;
  }

  /** The suffix `_html.` and a plural form, for each of the four forms. */
  lemma HTMLPluralSuffixes()
    ensures "_html." + "zero" == "_html.zero" && "_html." + "one" == "_html.one"
    ensures "_html." + "two" == "_html.two" && "_html." + "other" == "_html.other"
    ensures forall p :: p in PluralizationKeys ==> '.' !in p && !EndsWith(p, "_html")
  {
    assert "other"[0] != "_html"[0];
  }

  /** A key ends with `_html.` and a plural form only if that form is its last segment. */
  lemma PluralSuffixLast(key: string, p: string)
    requires p in PluralizationKeys
    requires EndsWith(key, "_html." + p)
    ensures LastPiece(key, '.') == p
  {
    HTMLPluralSuffixes();
    HTMLPluralSuffixParts(key, p);
  }

  /** When the last segment is not a plural form, only the `_html` ending counts. */
  lemma IsHTMLKeyPlain(key: string)
    requires LastPiece(key, '.') !in PluralizationKeys
    ensures IsHTMLKey(key) <==> HasHTMLSuffix(key)
  {
    HTMLPluralSuffixes();
    if EndsWith(key, "_html.zero") { PluralSuffixLast(key, "zero"); }
    if EndsWith(key, "_html.one") { PluralSuffixLast(key, "one"); }
    if EndsWith(key, "_html.two") { PluralSuffixLast(key, "two"); }
    if EndsWith(key, "_html.other") { PluralSuffixLast(key, "other"); }
    assert HasHTMLSuffix(key) <==> EndsWith(key, "_html");
    LastPieceSuffix(key, '.', "_html");
  }

  /** When the last segment is a plural form, an HTML key ends with `_html.` and that form. */
  lemma IsHTMLKeyPluralSuffix(key: string)
    requires LastPiece(key, '.') in PluralizationKeys
    requires IsHTMLKey(key)
    ensures HasHTMLSuffix(key)
  {
    var parts := Split(key, '.');
    var p := parts[|parts| - 1];
    assert p == LastPiece(key, '.');
    assert |parts| >= 2 && EndsWith(parts[|parts| - 2], "_html");
    HTMLPluralPartsSuffix(key);
    assert EndsWith(key, "_html." + p);
    HTMLPluralSuffixes();
    assert p == "zero" || p == "one" || p == "two" || p == "other";
  }

  /** When the last segment is a plural form, a key ending with `_html.` and a plural form is an HTML key. */
  lemma HasHTMLSuffixPlural(key: string)
    requires LastPiece(key, '.') in PluralizationKeys
    requires HasHTMLSuffix(key)
    ensures IsHTMLKey(key)
  {
    HTMLPluralSuffixes();
    LastPieceSuffix(key, '.', "_html");
    if EndsWith(key, "_html.zero") { HTMLPluralSuffixParts(key, "zero"); }
    else if EndsWith(key, "_html.one") { HTMLPluralSuffixParts(key, "one"); }
    else if EndsWith(key, "_html.two") { HTMLPluralSuffixParts(key, "two"); }
    else if EndsWith(key, "_html.other") { HTMLPluralSuffixParts(key, "other"); }
  }

  /** When the last segment is a plural form, only the segment before it counts. */
  lemma IsHTMLKeyPlural(key: string)
    requires LastPiece(key, '.') in PluralizationKeys
    ensures IsHTMLKey(key) <==> HasHTMLSuffix(key)
  {
    if IsHTMLKey(key) {
      IsHTMLKeyPluralSuffix(key);
    }
    if HasHTMLSuffix(key) {
      HasHTMLSuffixPlural(key);
    }
  }

  /**
   The HTML-key rule stated on the key's text: the key ends with `_html`, or
   with `_html.zero`, `_html.one`, `_html.two` or `_html.other`. A key that is
   only a plural form, such as `other`, is not an HTML key.
   */
  lemma IsHTMLKeyIff(key: string)
    ensures IsHTMLKey(key) <==> HasHTMLSuffix(key)
  {
    if LastPiece(key, '.') in PluralizationKeys {
      IsHTMLKeyPlural(key);
    } else {
      IsHTMLKeyPlain(key);
    }
  }

  /** A locale file as read from disk: its path and its parsed contents. */
  datatype LocaleFile = LocaleFile(path: string, content: Json)

  /** The `[locale, flattenKeys(json)]` pair `loadTranslationFile` resolves with, for each file in order. */
  function LocalePairs(files: seq<LocaleFile>): (ps: seq<(string, Dict<Json>)>)
    ensures |ps| == |files|
    ensures forall i :: 0 <= i < |files| ==> ps[i] == (LocaleId(files[i].path), FlattenKeys(files[i].content))
    decreases |files|
  {
    if |files| == 0 then []
    else [(LocaleId(files[0].path), FlattenKeys(files[0].content))] + LocalePairs(files[1..])
  }

  /** `loadTranslations()`: `_.fromPairs` of those pairs, a dictionary from locale id to flattened translations. */
  function LoadTranslations(files: seq<LocaleFile>): Dict<Dict<Json>> {
    PutAll([], LocalePairs(files))
  }

  /**
   Every file contributes its locale id, each id is listed once, and an id
   holds the translations of the last file with that id.
   */
  lemma LoadTranslationsGet(files: seq<LocaleFile>, id: string)
    ensures DistinctKeys(LoadTranslations(files))
    ensures id in Keys(LoadTranslations(files)) <==> exists i :: 0 <= i < |files| && LocaleId(files[i].path) == id
    ensures Get(LoadTranslations(files), id) == LastWith(LocalePairs(files), id)
  {
    var ps := LocalePairs(files);
    PutAllDistinct([], ps);
    PutAllGet([], ps, id);
    if id in Keys(ps) {
      var i :| 0 <= i < |ps| && Keys(ps)[i] == id;
      assert LocaleId(files[i].path) == id;
    }
    if exists i :: 0 <= i < |files| && LocaleId(files[i].path) == id {
      var i :| 0 <= i < |files| && LocaleId(files[i].path) == id;
      assert Keys(ps)[i] == id;
    }
  }
}

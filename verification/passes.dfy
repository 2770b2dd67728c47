/**
 The four checks of the i18n linter and `run`, each a pure function from a
 fully loaded snapshot — the locale catalogue, the template references and
 the default locale — to the reporter calls it makes, in order. The HTML
 linter is a parameter: what it reports for a value, as a list of issues
 each naming the rule it breaks.
 */
module Passes {
  import opened Optional
  import opened Text
  import opened JsonValue
  import opened Dict
  import opened Locales
  import opened TemplateReferences
  import opened ReporterLog

  /** The loaded translations: each locale id with its flattened translations. */
  type Catalog = Dict<Dict<Json>>

  /** An htmllint issue; only the rule it names is used. */
  datatype Issue = Issue(rule: string)

  /** Every call passed. */
  predicate AllPass(reports: seq<Report>) {
    forall i :: 0 <= i < |reports| ==> reports[i].verdict == Pass
  }

  /**
   The default locale where it is interpolated into a message or used as a
   property name: an absent default is `undefined` and reads as "undefined".
   */
  function DefaultName(d: Option<string>): string {
    d.GetOr("undefined")
  }

  /** `translations[defaultLocale] || {}`. */
  function DefaultData(catalog: Catalog, d: Option<string>): Dict<Json> {
    Get(catalog, DefaultName(d)).GetOr([])
  }

  // ---------------------------------------------------------------- testDefaultLocale

  /** `testDefaultLocale`: one success carrying the default locale's file, or one failure with no file. */
  function TestDefaultLocale(root: string, d: Option<string>): (reps: seq<Report>)
    ensures |reps| == 1
    ensures reps[0].verdict == Pass <==> d.Some?
    ensures d.Some? ==> reps[0] == Report(Pass, "Includes a default locale file", Some(LocalePath(root, d.value)), None)
    ensures d.None? ==> reps[0] == Report(Fail, "Does not include a default locale file", None, None)
  {
    match d
    case Some(id) => [Report(Pass, "Includes a default locale file", Some(LocalePath(root, id)), None)]
    case None => [Report(Fail, "Does not include a default locale file", None, None)]
  }

  // ---------------------------------------------------------------- testReferencedKeys

  /** `if (defaultLocaleData[key])`: the key is present with a truthy value. */
  predicate HasEntry(data: Dict<Json>, key: string) {
    Get(data, key).Some? && Truthy(Get(data, key).value)
  }

  /** The call made for one reference. */
  function ReferenceReport(data: Dict<Json>, dname: string, r: Reference): Report {
    if HasEntry(data, r.key) then
      Report(Pass, "'" + r.key + "' has a matching entry in '" + dname + "'", Some(r.file), Some(r.index))
    else
      Report(Fail, "'" + r.key + "' does not have a matching entry in '" + dname + "'", Some(r.file), Some(r.index))
  }

  /**
   `testReferencedKeys`: one call per reference, in reference order, carrying
   the reference's file and offset; a success exactly when the default
   locale has a truthy value under the reference's key.
   */
  function TestReferencedKeys(catalog: Catalog, d: Option<string>, refs: seq<Reference>): (reps: seq<Report>)
    ensures |reps| == |refs|
    ensures forall k :: 0 <= k < |refs| ==>
      && reps[k].file == Some(refs[k].file)
      && reps[k].index == Some(refs[k].index)
      && (reps[k].verdict == Pass <==> HasEntry(DefaultData(catalog, d), refs[k].key))
    ensures forall k :: 0 <= k < |refs| && reps[k].verdict == Pass ==>
      reps[k].message == "'" + refs[k].key + "' has a matching entry in '" + DefaultName(d) + "'"
    ensures forall k :: 0 <= k < |refs| && reps[k].verdict == Fail ==>
      reps[k].message == "'" + refs[k].key + "' does not have a matching entry in '" + DefaultName(d) + "'"
  {
    var data := DefaultData(catalog, d);
    seq(|refs|, k requires 0 <= k < |refs| => ReferenceReport(data, DefaultName(d), refs[k]))
  }

  /**
   Without a default locale every reference fails, unless a locale is
   literally called "undefined": the lookup `translations[undefined]` reads
   that property.
   */
  lemma NoDefaultEveryReferenceFails(catalog: Catalog, refs: seq<Reference>)
    requires "undefined" !in Keys(catalog)
    ensures forall k :: 0 <= k < |refs| ==> TestReferencedKeys(catalog, None, refs)[k].verdict == Fail
  {
    assert DefaultData(catalog, None) == [];
  }

  // ---------------------------------------------------------------- testMismatchedKeys

  /** `_.difference(a, b)`: the elements of `a` not in `b`, in `a`'s order. */
  function Difference(a: seq<string>, b: seq<string>): (r: seq<string>)
    ensures forall x :: x in r <==> x in a && x !in b
    ensures |r| <= |a|
    decreases |a|
  {
    if |a| == 0 then []
    else (if a[0] in b then [] else [a[0]]) + Difference(a[1..], b)
  }

  /**
   `_.difference` keeps `a`'s order and its repeats: one more element at the
   end of `a` adds itself at the end of the result, unless `b` holds it.
   */
  lemma {:induction false} DifferenceAppend(a: seq<string>, x: string, b: seq<string>)
    ensures Difference(a + [x], b) == Difference(a, b) + (if x in b then [] else [x])
    decreases |a|
  {
    if |a| == 0 {
      assert a + [x] == [x] && [x][1..] == [];
    } else {
      assert (a + [x])[0] == a[0] && (a + [x])[1..] == a[1..] + [x];
      DifferenceAppend(a[1..], x, b);
    }
  }

  /** `keys.map(k => `'${k}'`).join(", ")`. */
  function QuotedList(keys: seq<string>): string {
    Join(seq(|keys|, i requires 0 <= i < |keys| => "'" + keys[i] + "'"), ", ")
  }

  /** The calls made for one non-default locale with keys `keys`, against the default's keys `defaultKeys`. */
  function LocaleReports(root: string, id: string, keys: seq<string>, defaultKeys: seq<string>, dname: string): seq<Report> {
    var path := LocalePath(root, id);
    var missing := Difference(defaultKeys, keys);
    var extra := Difference(keys, defaultKeys);
    (if |missing| > 0 then [Report(Fail, "Missing entries found: " + QuotedList(missing), Some(path), None)] else [])
    + (if |extra| > 0 then [Report(Fail, "Extra entries found: " + QuotedList(extra), Some(path), None)] else [])
    + (if |missing| == 0 && |extra| == 0
       then [Report(Pass, "'" + id + "' has all the entries present in '" + dname + "'", Some(path), None)]
       else [])
  }

  /** Two key lists hold the same keys, whatever their order. */
  predicate SameKeys(a: seq<string>, b: seq<string>) {
    (forall x :: x in a ==> x in b) && (forall x :: x in b ==> x in a)
  }

  /**
   A locale gets one or two calls, all carrying its file: a failure listing
   the default's keys it lacks if there are any, a failure listing the keys
   the default lacks if there are any, and a success exactly when it has the
   same keys as the default.
   */
  lemma LocaleReportsShape(root: string, id: string, keys: seq<string>, defaultKeys: seq<string>, dname: string)
    ensures var reps := LocaleReports(root, id, keys, defaultKeys, dname);
      && 1 <= |reps| <= 2
      && (forall i :: 0 <= i < |reps| ==> reps[i].file == Some(LocalePath(root, id)) && reps[i].index.None?)
      && (AllPass(reps) <==> SameKeys(keys, defaultKeys))
      && (SameKeys(keys, defaultKeys) ==>
           reps == [Report(Pass, "'" + id + "' has all the entries present in '" + dname + "'", Some(LocalePath(root, id)), None)])
      && (!SameKeys(keys, defaultKeys) ==> forall i :: 0 <= i < |reps| ==> reps[i].verdict == Fail)
  {
    var missing := Difference(defaultKeys, keys);
    var extra := Difference(keys, defaultKeys);
    assert |missing| == 0 <==> forall x :: x in defaultKeys ==> x in keys by {
      if |missing| > 0 { assert missing[0] in missing; }
    }
    assert |extra| == 0 <==> forall x :: x in keys ==> x in defaultKeys by {
      if |extra| > 0 { assert extra[0] in extra; }
    }
    var reps := LocaleReports(root, id, keys, defaultKeys, dname);
    if |missing| > 0 || |extra| > 0 {
      assert reps[0].verdict == Fail;
    }
  }

  /**
   The failures of a locale name the keys: the first call lists the
   default's keys the locale lacks exactly when there are any, the last call
   lists the keys the default lacks exactly when there are any, and a locale
   that differs gets one failure per non-empty list and nothing else.
   */
  lemma LocaleReportsMessages(root: string, id: string, keys: seq<string>, defaultKeys: seq<string>, dname: string)
    ensures var reps := LocaleReports(root, id, keys, defaultKeys, dname);
      var missing := Difference(defaultKeys, keys);
      var extra := Difference(keys, defaultKeys);
      && |reps| >= 1
      && (|missing| > 0 <==> reps[0] == Report(Fail, "Missing entries found: " + QuotedList(missing), Some(LocalePath(root, id)), None))
      && (|extra| > 0 <==> reps[|reps| - 1] == Report(Fail, "Extra entries found: " + QuotedList(extra), Some(LocalePath(root, id)), None))
      && (|missing| > 0 || |extra| > 0 ==> |reps| == (if |missing| > 0 then 1 else 0) + (if |extra| > 0 then 1 else 0))
  {
    var path := LocalePath(root, id);
    var missing := Difference(defaultKeys, keys);
    var extra := Difference(keys, defaultKeys);
    var m := Report(Fail, "Missing entries found: " + QuotedList(missing), Some(path), None);
    var e := Report(Fail, "Extra entries found: " + QuotedList(extra), Some(path), None);
    var p := Report(Pass, "'" + id + "' has all the entries present in '" + dname + "'", Some(path), None);
    MessagesDiffer(QuotedList(missing), QuotedList(extra), id, dname);
    var reps := LocaleReports(root, id, keys, defaultKeys, dname);
    if |missing| > 0 && |extra| > 0 {
      assert reps == [m, e];
    } else if |missing| > 0 {
      assert reps == [m];
    } else if |extra| > 0 {
      assert reps == [e];
    } else {
      assert reps == [p];
    }
  }

  /** The three messages of the key check start differently, so no call can be mistaken for another. */
  lemma MessagesDiffer(m: string, e: string, id: string, dname: string)
    ensures "Missing entries found: " + m != "Extra entries found: " + e
    ensures "Missing entries found: " + m != "'" + id + "' has all the entries present in '" + dname + "'"
    ensures "Extra entries found: " + e != "'" + id + "' has all the entries present in '" + dname + "'"
  {
    assert ("Missing entries found: " + m)[0] == 'M';
    assert ("Extra entries found: " + e)[0] == 'E';
    assert ("'" + id + "' has all the entries present in '" + dname + "'")[0] == '\'';
  }

  /** The calls for the locales of `entries`, skipping the default. */
  function MismatchReports(root: string, entries: Catalog, d: Option<string>, defaultKeys: seq<string>): seq<Report>
    decreases |entries|
  {
    if |entries| == 0 then []
    else
      var (id, data) := entries[0];
      (if Some(id) == d then [] else LocaleReports(root, id, Keys(data), defaultKeys, DefaultName(d)))
      + MismatchReports(root, entries[1..], d, defaultKeys)
  }

  /** The calls for two runs of locales are those of the first run, then those of the second. */
  lemma {:induction false} MismatchReportsAppend(root: string, a: Catalog, b: Catalog, d: Option<string>, defaultKeys: seq<string>)
    ensures MismatchReports(root, a + b, d, defaultKeys)
         == MismatchReports(root, a, d, defaultKeys) + MismatchReports(root, b, d, defaultKeys)
    decreases |a|
  {
    if |a| == 0 {
      assert a + b == b;
    } else {
      MismatchReportsCons(root, a, b, d, defaultKeys);
      MismatchReportsAppend(root, a[1..], b, d, defaultKeys);
      ConcatAssoc(if Some(a[0].0) == d then [] else LocaleReports(root, a[0].0, Keys(a[0].1), defaultKeys, DefaultName(d)),
                  MismatchReports(root, a[1..], d, defaultKeys), MismatchReports(root, b, d, defaultKeys));
    }
  }

  lemma ConcatAssoc<T>(x: seq<T>, y: seq<T>, z: seq<T>)
    ensures x + (y + z) == (x + y) + z
  {
  }

  /** The first locale's calls come first, whatever follows it. */
  lemma MismatchReportsCons(root: string, a: Catalog, b: Catalog, d: Option<string>, defaultKeys: seq<string>)
    requires |a| > 0
    ensures var head := if Some(a[0].0) == d then [] else LocaleReports(root, a[0].0, Keys(a[0].1), defaultKeys, DefaultName(d));
      && MismatchReports(root, a + b, d, defaultKeys) == head + MismatchReports(root, a[1..] + b, d, defaultKeys)
      && MismatchReports(root, a, d, defaultKeys) == head + MismatchReports(root, a[1..], d, defaultKeys)
  {
    assert (a + b)[0] == a[0] && (a + b)[1..] == a[1..] + b;
  }

  /** One locale gets its own calls, checked against the default's keys, unless it is the default, which gets none. */
  lemma MismatchReportsOne(root: string, id: string, data: Dict<Json>, d: Option<string>, defaultKeys: seq<string>)
    ensures MismatchReports(root, [(id, data)], d, defaultKeys)
         == if Some(id) == d then [] else LocaleReports(root, id, Keys(data), defaultKeys, DefaultName(d))
  {
    assert [(id, data)][1..] == [];
  }

  /** `testMismatchedKeys`: the calls for every locale but the default, in catalogue order. */
  function TestMismatchedKeys(root: string, catalog: Catalog, d: Option<string>): seq<Report> {
    MismatchReports(root, catalog, d, Keys(DefaultData(catalog, d)))
  }

  /** The check passes exactly when every locale but the default has the default's keys. */
  lemma {:induction false} MismatchAllPass(root: string, entries: Catalog, d: Option<string>, defaultKeys: seq<string>)
    ensures AllPass(MismatchReports(root, entries, d, defaultKeys)) <==>
      forall i :: 0 <= i < |entries| && Some(entries[i].0) != d ==> SameKeys(Keys(entries[i].1), defaultKeys)
    decreases |entries|
  {
    if |entries| > 0 {
      var (id, data) := entries[0];
      var head := if Some(id) == d then [] else LocaleReports(root, id, Keys(data), defaultKeys, DefaultName(d));
      var tail := MismatchReports(root, entries[1..], d, defaultKeys);
      MismatchAllPass(root, entries[1..], d, defaultKeys);
      LocaleReportsShape(root, id, Keys(data), defaultKeys, DefaultName(d));
      AllPassAppend(head, tail);
      assert forall i :: 1 <= i < |entries| ==> entries[i] == entries[1..][i - 1];
    }
  }

  lemma AllPassAppend(a: seq<Report>, b: seq<Report>)
    ensures AllPass(a + b) <==> AllPass(a) && AllPass(b)
  {
    if AllPass(a + b) {
      forall i | 0 <= i < |a| ensures a[i].verdict == Pass {
        assert (a + b)[i] == a[i];
      }
      forall i | 0 <= i < |b| ensures b[i].verdict == Pass {
        assert (a + b)[|a| + i] == b[i];
      }
    }
    if AllPass(a) && AllPass(b) {
      forall i | 0 <= i < |a + b| ensures (a + b)[i].verdict == Pass {
        if i < |a| {
          assert (a + b)[i] == a[i];
        } else {
          assert (a + b)[i] == b[i - |a|];
        }
      }
    }
  }

  // ---------------------------------------------------------------- testHTML

  /** One translation `htmllint` is run on: the locale, the key and the value. */
  datatype HtmlEntry = HtmlEntry(locale: string, key: string, value: Json)

  /** The HTML keys of one locale's translations, in key order. */
  function LocaleHtmlEntries(locale: string, data: Dict<Json>): (es: seq<HtmlEntry>)
    ensures forall e :: e in es <==>
      exists j :: 0 <= j < |data| && IsHTMLKey(data[j].0) && e == HtmlEntry(locale, data[j].0, data[j].1)
    decreases |data|
  {
    if |data| == 0 then []
    else
      var rest := LocaleHtmlEntries(locale, data[1..]);
      assert forall j :: 1 <= j < |data| ==> data[j] == data[1..][j - 1];
      (if IsHTMLKey(data[0].0) then [HtmlEntry(locale, data[0].0, data[0].1)] else []) + rest
  }

  /** The HTML keys of every locale, the default included, locale after locale. */
  function HtmlEntries(catalog: Catalog): (es: seq<HtmlEntry>)
    ensures forall e :: e in es <==>
      exists i, j :: 0 <= i < |catalog| && 0 <= j < |catalog[i].1| && IsHTMLKey(catalog[i].1[j].0) &&
                     e == HtmlEntry(catalog[i].0, catalog[i].1[j].0, catalog[i].1[j].1)
    decreases |catalog|
  {
    if |catalog| == 0 then []
    else
      var rest := HtmlEntries(catalog[1..]);
      assert forall i :: 1 <= i < |catalog| ==> catalog[i] == catalog[1..][i - 1];
      LocaleHtmlEntries(catalog[0].0, catalog[0].1) + rest
  }

  /** A locale's HTML entries follow its keys: the entries of two runs of keys, one after the other. */
  lemma {:induction false} LocaleHtmlEntriesAppend(locale: string, a: Dict<Json>, b: Dict<Json>)
    ensures LocaleHtmlEntries(locale, a + b) == LocaleHtmlEntries(locale, a) + LocaleHtmlEntries(locale, b)
    decreases |a|
  {
    if |a| == 0 {
      assert a + b == b;
    } else {
      var head := if IsHTMLKey(a[0].0) then [HtmlEntry(locale, a[0].0, a[0].1)] else [];
      assert (a + b)[0] == a[0] && (a + b)[1..] == a[1..] + b;
      assert LocaleHtmlEntries(locale, a + b) == head + LocaleHtmlEntries(locale, a[1..] + b);
      LocaleHtmlEntriesAppend(locale, a[1..], b);
    }
  }

  /** One translation gives one entry if its key is an HTML key, and none otherwise. */
  lemma LocaleHtmlEntriesOne(locale: string, k: string, v: Json)
    ensures LocaleHtmlEntries(locale, [(k, v)]) == if IsHTMLKey(k) then [HtmlEntry(locale, k, v)] else []
  {
    assert [(k, v)][1..] == [];
  }

  /** The catalogue's HTML entries come locale after locale, each locale's in key order. */
  lemma {:induction false} HtmlEntriesAppend(a: Catalog, b: Catalog)
    ensures HtmlEntries(a + b) == HtmlEntries(a) + HtmlEntries(b)
    decreases |a|
  {
    if |a| == 0 {
      assert a + b == b;
    } else {
      var head := LocaleHtmlEntries(a[0].0, a[0].1);
      assert (a + b)[0] == a[0] && (a + b)[1..] == a[1..] + b;
      assert HtmlEntries(a + b) == head + HtmlEntries(a[1..] + b);
      HtmlEntriesAppend(a[1..], b);
      ConcatAssoc(head, HtmlEntries(a[1..]), HtmlEntries(b));
    }
  }

  /** A catalogue of one locale has exactly that locale's HTML entries. */
  lemma HtmlEntriesOne(locale: string, data: Dict<Json>)
    ensures HtmlEntries([(locale, data)]) == LocaleHtmlEntries(locale, data)
  {
    assert [(locale, data)][1..] == [];
  }

  /** The call made once `htmllint` has reported on one entry. */
  function HtmlReport(root: string, lint: Json -> seq<Issue>, e: HtmlEntry): Report {
    var issues := lint(e.value);
    if |issues| > 0 then
      Report(Fail, "'" + e.key + "' contains invalid HTML. See " + LintRuleURL(issues[0].rule), Some(LocalePath(root, e.locale)), None)
    else
      Report(Pass, "'" + e.key + "' contains valid HTML", Some(LocalePath(root, e.locale)), None)
  }

  /**
   `testHTML`: one call per HTML key of every locale, in catalogue and then
   key order (`Promise.all` keeps the order the lint runs were started in),
   carrying the locale's file; a failure exactly when htmllint reports an
   issue, naming the first issue's rule.
   */
  function TestHTML(root: string, catalog: Catalog, lint: Json -> seq<Issue>): (reps: seq<Report>)
    ensures |reps| == |HtmlEntries(catalog)|
    ensures forall k :: 0 <= k < |reps| ==>
      var e := HtmlEntries(catalog)[k];
      && reps[k].file == Some(LocalePath(root, e.locale))
      && reps[k].index.None?
      && (reps[k].verdict == Fail <==> |lint(e.value)| > 0)
      && (|lint(e.value)| > 0 ==>
           reps[k].message == "'" + e.key + "' contains invalid HTML. See " + LintRuleURL(lint(e.value)[0].rule))
      && (|lint(e.value)| == 0 ==> reps[k].message == "'" + e.key + "' contains valid HTML")
  {
    var es := HtmlEntries(catalog);
    seq(|es|, k requires 0 <= k < |es| => HtmlReport(root, lint, es[k]))
  }

  // ---------------------------------------------------------------- run

  /** `run()`: the four checks in order, each against the same snapshot. */
  function Run(root: string, catalog: Catalog, refs: seq<Reference>, lint: Json -> seq<Issue>): seq<Report> {
    var d := DefaultLocale(Keys(catalog));
    TestDefaultLocale(root, d) + TestReferencedKeys(catalog, d, refs)
    + TestMismatchedKeys(root, catalog, d) + TestHTML(root, catalog, lint)
  }

  /** What a theme must satisfy for every check to pass. */
  predicate Consistent(catalog: Catalog, refs: seq<Reference>, lint: Json -> seq<Issue>) {
    var d := DefaultLocale(Keys(catalog));
    && d.Some?
    && (forall k :: 0 <= k < |refs| ==> HasEntry(DefaultData(catalog, d), refs[k].key))
    && (forall i :: 0 <= i < |catalog| && catalog[i].0 != d.value ==>
          SameKeys(Keys(catalog[i].1), Keys(DefaultData(catalog, d))))
    && (forall e :: e in HtmlEntries(catalog) ==> |lint(e.value)| == 0)
  }

  /**
   Every check passes exactly when the theme has a default locale, every
   referenced key has a truthy value in it, every other locale has exactly
   its keys, and htmllint finds nothing in any HTML translation.
   */
  lemma RunAllPass(root: string, catalog: Catalog, refs: seq<Reference>, lint: Json -> seq<Issue>)
    ensures AllPass(Run(root, catalog, refs, lint)) <==> Consistent(catalog, refs, lint)
  {
    var d := DefaultLocale(Keys(catalog));
    var a := TestDefaultLocale(root, d);
    var b := TestReferencedKeys(catalog, d, refs);
    var c := TestMismatchedKeys(root, catalog, d);
    var h := TestHTML(root, catalog, lint);
    AllPassAppend(a, b);
    AllPassAppend(a + b, c);
    AllPassAppend(a + b + c, h);
    assert AllPass(a) <==> d.Some?;
    ReferencedAllPass(catalog, d, refs);
    if d.Some? {
      MismatchDefaultAllPass(root, catalog, d.value);
    }
    HTMLAllPass(root, catalog, lint);
  }

  /** The reference check passes exactly when every referenced key has a truthy value in the default locale. */
  lemma ReferencedAllPass(catalog: Catalog, d: Option<string>, refs: seq<Reference>)
    ensures AllPass(TestReferencedKeys(catalog, d, refs)) <==>
      forall k :: 0 <= k < |refs| ==> HasEntry(DefaultData(catalog, d), refs[k].key)
  {
  }

  /** With a default locale, the key check passes exactly when every other locale has exactly its keys. */
  lemma MismatchDefaultAllPass(root: string, catalog: Catalog, d: string)
    ensures AllPass(TestMismatchedKeys(root, catalog, Some(d))) <==>
      forall i :: 0 <= i < |catalog| && catalog[i].0 != d ==>
        SameKeys(Keys(catalog[i].1), Keys(DefaultData(catalog, Some(d))))
  {
    MismatchAllPass(root, catalog, Some(d), Keys(DefaultData(catalog, Some(d))));
    assert forall i :: 0 <= i < |catalog| ==> (Some(catalog[i].0) != Some(d) <==> catalog[i].0 != d);
  }

  /** The HTML check passes exactly when htmllint finds nothing in any HTML translation. */
  lemma HTMLAllPass(root: string, catalog: Catalog, lint: Json -> seq<Issue>)
    ensures AllPass(TestHTML(root, catalog, lint)) <==> forall e :: e in HtmlEntries(catalog) ==> |lint(e.value)| == 0
  {
    var es := HtmlEntries(catalog);
    var h := TestHTML(root, catalog, lint);
    if AllPass(h) {
      forall e | e in es ensures |lint(e.value)| == 0 {
        var k :| 0 <= k < |es| && es[k] == e;
        assert h[k].verdict == Pass;
      }
    }
    if forall e :: e in es ==> |lint(e.value)| == 0 {
      forall k | 0 <= k < |h| ensures h[k].verdict == Pass {
        assert es[k] in es;
      }
    }
  }

  /**
   The whole linter on the files of a theme: the catalogue loaded from the
   locale files, the references of every template, the checks run into a
   fresh reporter, and the summary it prints.
   */
  function Lint(root: string, locales: seq<LocaleFile>, templates: seq<Template>, lint: Json -> seq<Issue>): (s: Summary)
    ensures s.checksRun == |Run(root, LoadTranslations(locales), AllReferences(templates), lint)|
    ensures s.passed <==> Consistent(LoadTranslations(locales), AllReferences(templates), lint)
    ensures var failures := FailureEntries(Run(root, LoadTranslations(locales), AllReferences(templates), lint));
      && |s.listing| == |GroupBy(failures)|
      && forall i :: 0 <= i < |s.listing| ==> s.listing[i] == (GroupBy(failures)[i].0, Messages(GroupBy(failures)[i].1))
  {
    var reps := Run(root, LoadTranslations(locales), AllReferences(templates), lint);
    RecordLogs(Fresh, reps);
    assert Record(Fresh, reps).failures == FailureEntries(reps);
    RecordCounts(Fresh, reps);
    FailCountZero(reps);
    RunAllPass(root, LoadTranslations(locales), AllReferences(templates), lint);
    Output(Record(Fresh, reps))
  }
}

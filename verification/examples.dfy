/** The linter's checks on the small themes its own tests describe. */
module LinterExamples {
  import opened Optional
  import opened Text
  import opened JsonValue
  import opened Dict
  import opened Flatten
  import opened Locales
  import opened TemplateReferences
  import opened ReporterLog
  import opened Passes
  import opened Scanner
  import ScannerExamples

  const Root: string := "/path/to/theme"

  lemma FieldsOne(name: string, v: Json, keys: seq<string>, acc: Dict<Json>)
    ensures FlattenFields([(name, v)], keys, acc) == FlattenInto(v, keys + [name], acc)
  {
    assert [(name, v)][1..] == [];
  }

  lemma ItemsCons(item: Json, items: seq<Json>, start: nat, keys: seq<string>, acc: Dict<Json>)
    ensures FlattenItems([item] + items, start, keys, acc)
         == FlattenItems(items, start + 1, keys, FlattenInto(item, keys + [DecimalString(start)], acc))
  {
    assert ([item] + items)[1..] == items;
  }

  /** A nested object flattens to one dotted key per leaf. */
  lemma FlattenNested()
    ensures FlattenKeys(JObj([("product", JObj([("card", JObj([("title", JStr("Product title"))]))]))]))
         == [("product.card.title", JStr("Product title"))]
  {
    var v := JStr("Product title");
    var title := JObj([("title", v)]);
    var card := JObj([("card", title)]);
    var path := ["product", "card", "title"];
    assert Join(path, ".") == "product.card.title";
    assert FlattenInto(v, path, []) == [("product.card.title", v)];
    FieldsOne("title", v, ["product", "card"], []);
    assert ["product", "card"] + ["title"] == path;
    FieldsOne("card", title, ["product"], []);
    assert ["product"] + ["card"] == ["product", "card"];
    FieldsOne("product", card, [], []);
    assert [] + ["product"] == ["product"];
  }

  lemma FlattenArrayPart()
    ensures FlattenInto(JArr([JStr("x"), JObj([("b", JNull)])]), ["a"], []) == [("a.0", JStr("x")), ("a.1.b", JNull)]
  {
    var x := JStr("x");
    var inner := JObj([("b", JNull)]);
    var first := [("a.0", x)];
    assert Join(["a", "0"], ".") == "a.0";
    assert Join(["a", "1", "b"], ".") == "a.1.b";
    assert FlattenInto(x, ["a", "0"], []) == first;
    FieldsOne("b", JNull, ["a", "1"], first);
    assert ["a", "1"] + ["b"] == ["a", "1", "b"];
    ItemsCons(inner, [], 1, ["a"], first);
    assert DecimalString(1) == "1";
    assert ["a"] + [DecimalString(1)] == ["a", "1"];
    ItemsCons(x, [inner], 0, ["a"], []);
    assert DecimalString(0) == "0";
    assert ["a"] + [DecimalString(0)] == ["a", "0"];
    assert [x] + [inner] == [x, inner];
  }

  /** Arrays are descended into under index names, `null` is a leaf, and an empty object adds nothing. */
  lemma FlattenArraysAndNull()
    ensures FlattenKeys(JObj([("a", JArr([JStr("x"), JObj([("b", JNull)])])), ("e", JObj([]))]))
         == [("a.0", JStr("x")), ("a.1.b", JNull)]
  {
    var arr := JArr([JStr("x"), JObj([("b", JNull)])]);
    var both := [("a.0", JStr("x")), ("a.1.b", JNull)];
    FlattenArrayPart();
    var fields := [("a", arr), ("e", JObj([]))];
    assert fields[1..] == [("e", JObj([]))];
    assert [] + ["a"] == ["a"];
    assert FlattenFields(fields, [], []) == FlattenFields([("e", JObj([]))], [], both);
    FieldsOne("e", JObj([]), [], both);
  }

  /** The default locale is the first id naming itself a default. */
  lemma DefaultLocaleFound()
    ensures DefaultLocale(["fr", "en.default"]) == Some("en.default")
  {
    assert HasAt("en.default", 2, ".default");
    assert !Contains("fr", ".default");
  }

  /** The default locale's file lies under `locales/`, and its name gives back the id. */
  lemma DefaultLocaleFile()
    ensures LocalePath(Root, "en.default") == "/path/to/theme/locales/en.default.json"
    ensures LocaleId("/path/to/theme/locales/en.default.json") == "en.default"
  {
    LocaleIdOfPath(Root, "en.default");
  }

  lemma QuotedPair(a: string, b: string)
    ensures QuotedList([a, b]) == "'" + a + "', '" + b + "'"
  {
    var quoted := seq(2, i requires 0 <= i < 2 => "'" + [a, b][i] + "'");
    assert quoted == ["'" + a + "'", "'" + b + "'"];
    assert quoted[1..] == ["'" + b + "'"];
    assert Join(quoted, ", ") == quoted[0] + ", " + quoted[1];
  }

  lemma MismatchPair(root: string, x: (string, Dict<Json>), y: (string, Dict<Json>), defaultKeys: seq<string>)
    ensures MismatchReports(root, [x, y], Some(x.0), defaultKeys)
         == (if y.0 == x.0 then [] else LocaleReports(root, y.0, Keys(y.1), defaultKeys, x.0))
  {
    assert [x, y][0] == x && [x, y][1..] == [y];
    assert [y][0] == y && [y][1..] == [];
    assert DefaultName(Some(x.0)) == x.0;
    assert MismatchReports(root, [x, y], Some(x.0), defaultKeys) == [] + MismatchReports(root, [y], Some(x.0), defaultKeys);
    assert MismatchReports(root, [], Some(x.0), defaultKeys) == [];
  }

  /** The French file is reported once, listing the missing keys in the default's order. */
  lemma MissingEntriesReported(catalog: Catalog)
    requires catalog == [("en.default", [("hello", JStr("Hello!")), ("bye", JStr("Bye!"))]), ("fr", [])]
    ensures TestMismatchedKeys(Root, catalog, Some("en.default"))
         == [Report(Fail, "Missing entries found: " + ("'" + "hello" + "', '" + "bye" + "'"), Some(LocalePath(Root, "fr")), None)]
  {
    var defaultKeys := ["hello", "bye"];
    assert DefaultData(catalog, Some("en.default")) == catalog[0].1;
    assert Keys(catalog[0].1) == defaultKeys;
    MismatchPair(Root, catalog[0], catalog[1], defaultKeys);
    assert Difference(defaultKeys, []) == defaultKeys;
    assert Difference([], defaultKeys) == [];
    QuotedPair("hello", "bye");
  }

  /** A French file with the default's keys in another order is reported as complete. */
  lemma MatchingEntriesReported(catalog: Catalog)
    requires catalog == [("en.default", [("hello", JStr("Hello!")), ("bye", JStr("Bye!"))]),
                         ("fr", [("bye", JStr("Au revoir!")), ("hello", JStr("Bonjour!"))])]
    ensures TestMismatchedKeys(Root, catalog, Some("en.default"))
         == [Report(Pass, "'" + "fr" + "' has all the entries present in '" + "en.default" + "'", Some(LocalePath(Root, "fr")), None)]
  {
    var defaultKeys := ["hello", "bye"];
    assert DefaultData(catalog, Some("en.default")) == catalog[0].1;
    assert Keys(catalog[0].1) == defaultKeys;
    assert Keys(catalog[1].1) == ["bye", "hello"];
    MismatchPair(Root, catalog[0], catalog[1], defaultKeys);
    assert Difference(defaultKeys, ["bye", "hello"]) == [];
    assert Difference(["bye", "hello"], defaultKeys) == [];
  }

  /** A reference to a key the default locale lacks fails, at the reference's file and offset. */
  lemma MissingReferenceReported(catalog: Catalog, refs: seq<Reference>)
    requires catalog == [("en.default", [])]
    requires refs == [Reference("/path/to/theme/templates/product.liquid", "product.card.title", 0)]
    ensures TestReferencedKeys(catalog, Some("en.default"), refs)
         == [Report(Fail, "'" + "product.card.title" + "' does not have a matching entry in '" + "en.default" + "'",
                    Some("/path/to/theme/templates/product.liquid"), Some(0))]
  {
    assert DefaultData(catalog, Some("en.default")) == [];
    assert !HasEntry([], "product.card.title");
    var reps := TestReferencedKeys(catalog, Some("en.default"), refs);
    assert |reps| == 1 && reps[0] == ReferenceReport([], "en.default", refs[0]);
  }

  /** A key ending in `_html` is an HTML key. */
  lemma HTMLKeyPlainExample(key: string)
    requires key == "hello_html"
    ensures IsHTMLKey(key)
  {
    IsHTMLKeyIff(key);
    assert key[5..] == "_html";
  }

  /** A plural form after an `_html` segment is an HTML key. */
  lemma HTMLKeyPluralExample(key: string)
    requires key == "product_count" + "_html.other"
    ensures IsHTMLKey(key)
  {
    IsHTMLKeyIff(key);
    var front := "product_count";
    assert key[|front|..] == "_html.other";
  }

  /** A plural form on its own is not an HTML key: there is no segment before it. */
  lemma PluralFormAloneNotHTML(key: string)
    requires key == "other"
    ensures !IsHTMLKey(key)
  {
    assert '.' !in key;
    SplitFree(key, '.');
  }

  /** A key without an `_html` ending is not an HTML key. */
  lemma PlainKeyNotHTML(key: string)
    requires key == "hello"
    ensures !IsHTMLKey(key)
  {
    assert '.' !in key;
    SplitFree(key, '.');
    assert key !in PluralizationKeys;
    assert key[0] != "_html"[0];
  }

  /** Invalid HTML under a pluralised HTML key is reported with the first issue's rule, at the locale's file. */
  lemma InvalidHTMLReported(catalog: Catalog, lint: Json -> seq<Issue>)
    requires catalog == [("en.default", [("product_count" + "_html.other", JStr("<span>{{ count }} products"))])]
    requires lint(JStr("<span>{{ count }} products")) == [Issue("tag-close")]
    ensures TestHTML(Root, catalog, lint)
         == [Report(Fail, "'" + ("product_count" + "_html.other") + "' contains invalid HTML. See " + LintRuleURL("tag-close"),
                    Some(LocalePath(Root, "en.default")), None)]
  {
    var data := catalog[0].1;
    HTMLKeyPluralExample(data[0].0);
    var e := HtmlEntry("en.default", "product_count" + "_html.other", JStr("<span>{{ count }} products"));
    assert data[1..] == [];
    assert LocaleHtmlEntries("en.default", data) == [e] + [];
    assert catalog[1..] == [];
    assert HtmlEntries(catalog) == [e] + [];
    var reps := TestHTML(Root, catalog, lint);
    assert |reps| == 1 && reps[0] == HtmlReport(Root, lint, e);
  }

  /** `count:` as a word of the arguments makes the key plural. */
  lemma CountArgsPlural(key: string, args: string)
    requires args == " count: 1"
    ensures ReferenceKey(key, Some(args)) == key + ".other"
  {
    assert args[1..7] == "count:" by {
      forall i | 0 <= i < 6 ensures args[1..7][i] == "count:"[i] {
        assert args[1 + i] == "count:"[i];
      }
    }
    assert TokenAt(args, 1, "count:");
    ReferenceKeyIff(key, Some(args));
  }

  const ProductTemplate: string := "/path/to/theme/templates/product.liquid"

  /** A template's counted reference is looked up under its `.other` form. */
  lemma PluralReferenceKey(content: string)
    requires content == ScannerExamples.InventoryTemplate
    ensures References(ProductTemplate, content) == [Reference(ProductTemplate, "product.inventory_with_count" + ".other", 0)]
  {
    ScannerExamples.InventoryIsMatched(content);
    var m := Scan(content)[0];
    CountArgsPlural(m.groups.key, m.groups.args.value);
    var refs := References(ProductTemplate, content);
    assert |refs| == 1 && refs[0] == ToReference(ProductTemplate, m);
  }

  /** The counted reference is missing from an empty default locale under its `.other` form, at offset 0. */
  lemma PluralMissingReported(catalog: Catalog, content: string)
    requires catalog == [("en.default", [])]
    requires content == ScannerExamples.InventoryTemplate
    ensures TestReferencedKeys(catalog, Some("en.default"), References(ProductTemplate, content))
         == [Report(Fail, "'" + ("product.inventory_with_count" + ".other") + "' does not have a matching entry in '" + "en.default" + "'",
                    Some(ProductTemplate), Some(0))]
  {
    PluralReferenceKey(content);
    var refs := References(ProductTemplate, content);
    assert DefaultData(catalog, Some("en.default")) == [];
    assert !HasEntry([], refs[0].key);
    var reps := TestReferencedKeys(catalog, Some("en.default"), refs);
    assert |reps| == 1 && reps[0] == ReferenceReport([], "en.default", refs[0]);
  }
}

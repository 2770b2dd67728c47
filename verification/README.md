# Translation consistency checks of theme-lint, in Dafny

theme-lint checks the translations of a Shopify theme. This project models
its i18n linter: the part that decides whether the theme's translations are
consistent. The model covers four pieces.

- **The translation-filter scanner.** `PIPE_T_RXP` is driven by a global
  `exec` loop. It finds every `{{ "key" | t: args }}` reference in a Liquid
  template.
  - `GlobalExec` models the `exec` loop for any pattern.
  - `Scanner` models the pattern itself as a deterministic scanner over text,
    plus `TranslationFilterScanner.forEach`.
  - `TemplateReferences` turns the matches into references. It appends
    `.other` when the arguments hold the word `count:`.
- **The locale catalogue.**
  - `Flatten` models `flattenKeys`: a parsed locale file becomes dotted keys.
  - `Locales` models:
    - the locale id of a file and the path of a locale;
    - the default locale;
    - the HTML-key rule;
    - the catalogue built from the locale files;
    - the htmllint documentation URL.
- **The four checks and `run`.** `Passes` models each check as a pure function
  from a loaded snapshot to the reporter calls it makes, in order. htmllint is
  a parameter.
- **The reporter.** `ReporterLog` models:
  - the success and failure logs;
  - the number of checks run;
  - the pass/fail decision;
  - the grouping of failures by file that `output` prints.

Supporting modules:

- `Optional` holds the option type.
- `Text` holds string helpers with their own lemmas: `split`, `join`, whitespace
  splitting, suffixes.
- `JsonValue` holds parsed JSON values and JavaScript truthiness.
- `Dict` models JavaScript objects used as dictionaries: insertion-ordered keys,
  where assignment replaces in place or appends.
- `ScannerExamples` and `LinterExamples` replay the scenarios of the
  repository's own tests.

## Model

| member | source | states |
|---|---|---|
| Scanner.MatchAtIffShape | linters/translation_filter_scanner.js:3 | The pattern matches at a position exactly when the mandatory part is there: `{{`, whitespace, a quote, a non-empty key, the same quote, whitespace, `\|`, whitespace, `t`. Nothing after the `t` is required. |
| Scanner.ShapeGivesMatch | linters/translation_filter_scanner.js:3 | Any decomposition of the mandatory part is the one the scanner finds. The match has that quote and key, and its arguments and end come from the optional group tried after `t` or `translate`. |
| Scanner.KeyShape | linters/translation_filter_scanner.js:3 | A matched key is non-empty. It holds no line terminator and never its own opening quote. |
| Scanner.ArgsGroup | linters/translation_filter_scanner.js:3 | Arguments are captured only after a `:`. They are the shortest run of the line after which `\|` or `}}` follows, once whitespace is skipped. The match then ends right after that `\|`, or after both braces. Without such a run, the group is skipped and the match ends after the filter name. |
| Scanner.ArgsShape | linters/translation_filter_scanner.js:3 | Captured arguments contain no `\|`, no `}}` and no line terminator, and never end in whitespace. |
| Scanner.ArgsNeedColon | linters/translation_filter_scanner.js:3 | Arguments are present only when `:` directly follows `t` or `translate`. Otherwise the match ends right after the filter name. |
| Scanner.LazyArgsEnd | linters/translation_filter_scanner.js:3 | The lazy argument group ends at the least position where the closing tail matches, with no closing position before it. |
| GlobalExec.FindFrom | linters/translation_filter_scanner.js:14 | One `exec` returns the match at the first position from `lastIndex` where the pattern matches. The pattern matches nowhere in between. |
| GlobalExec.ScanDisjoint | linters/translation_filter_scanner.js:13-22 | Consecutive matches of the exec loop do not overlap. |
| GlobalExec.ScanComplete | linters/translation_filter_scanner.js:13-22 | Every position where the pattern matches lies inside some match the loop reports. |
| GlobalExec.ExecEach | linters/i18n.js:177-195 | The loop on a fresh matcher hands the callback exactly the successive matches, in order, stopping at the first failing `exec`. |
| Scanner.ScanBraces | linters/translation_filter_scanner.js:20 | Every reported index is the offset of a `{{` in the text. |
| Scanner.ScanIncreasing | linters/translation_filter_scanner.js:13-22 | Reported matches come in strictly increasing order of index and do not overlap. |
| Scanner.ScanCovers | linters/translation_filter_scanner.js:13-22 | Every position where the pattern matches lies inside some reported match. That match need not start there: a reference inside another match's arguments is swallowed, not reported. |
| Scanner.ForEach | linters/translation_filter_scanner.js:10-23 | `forEach` calls back once per match, in order, with key, arguments and index. An empty argument capture is passed as `null`. |
| Scanner.ForEachTwice | linters/translation_filter_scanner.js:10-23 | Each call of `forEach` builds a fresh matcher whose `exec` loop starts at offset 0, so a second call reports every match of the template again, not only the ones after the first call. |
| ScannerExamples.OpeningNoArgs | linters/translation_filter_scanner.js:3 | Take a reference opening `{{ q key q \| t` or `translate`, where the key holds neither the quote nor a line terminator. If a character follows the filter name and it is neither `:` nor `r`, the opening matches at its braces, with that quote and key and no arguments, and the match ends right after the filter name. |
| ScannerExamples.OpeningArgs | linters/translation_filter_scanner.js:3 | Take such an opening followed by `:`, plain arguments, and then ` }}` or ` \|`. Plain arguments hold no `\|`, `}` or line terminator and do not end in whitespace. The opening matches with exactly those arguments, and the match ends right after the `}}` or the `\|`. |
| ScannerExamples.NoArgsLine | linters/translation_filter_scanner.js:13-22 | After such an opening without arguments, the exec loop reports that match and resumes right after the filter name. |
| ScannerExamples.ArgsLine | linters/translation_filter_scanner.js:13-22 | After such an opening with arguments, the exec loop reports that match and resumes right after the `}}` or the `\|`. |
| ScannerExamples.SampleIsScanned | test/linters/translation_filter_scanner_test.js:9-25 | The six-line template of the scanner test yields exactly six matches, at offsets 9, 40, 89, 134, 174 and 239, with the quotes, keys and arguments of its six references. |
| ScannerExamples.SamplePublished | test/linters/translation_filter_scanner_test.js:18-31 | `forEach` on that template hands the callback exactly the six records the test expects, with `null` arguments for the three references without any. |
| ScannerExamples.PluralizedIsMatched | test/linters/translation_filter_scanner_test.js:13 | The line `{{ "pluralized.key" \| t: count: 3 }}` yields one match at its braces, with key `pluralized.key` and arguments ` count: 3`. |
| ScannerExamples.InventoryIsMatched | test/linters/i18n_test.js:84-85 | The template `{{ "product.inventory_with_count" \| t: count: 1 }}` yields one match at offset 0, ending after its `}}`, with arguments ` count: 1`. |
| Scanner.FilterNameEnd | linters/translation_filter_scanner.js:3 | The optional `ranslate` is greedy: the filter name ends after `translate` exactly when that word is spelt out, and after `t` otherwise. |
| ScannerExamples.PipeClosedResumes | linters/translation_filter_scanner.js:3-22 | In `{{ "a" \| t: x \|{{ "b" \| t }}`, the arguments of `a` are ` x` and end at the `\|`. Scanning resumes right after that bar, so both `a` and `b` are reported. |
| ScannerExamples.NestedIsSwallowed | linters/translation_filter_scanner.js:3-22 | In `{{ "a" \| t: {{ "b" \| t }}`, the arguments of `a` run up to the inner `\|`, and only `a` is reported. |
| ScannerExamples.NestedInnerCovered | linters/translation_filter_scanner.js:3-22 | In the same template, the pattern matches where `b` starts. No reported match starts there, but one covers it. |
| ScannerExamples.TimeTagIsMatched | test/linters/translation_filter_scanner_test.js:34-48 | The template with `{{ "now" \| time_tag: format: 'date' }}` yields one match, key `now` with no arguments, at offset 9. The test expects none; see "Left out". |
| TemplateReferences.ReferenceKeyIff | linters/i18n.js:184-192 | A reference key is the quoted key plus `.other` exactly when the arguments hold `count:` as a whole whitespace-separated word. Otherwise it is the quoted key unchanged. |
| TemplateReferences.ReferencesKeys | linters/i18n.js:180-195 | A template has one reference per match, in match order. Each carries the file and the match offset, and its key follows the `count:` rule. |
| TemplateReferences.ReferencesIncreasing | linters/i18n.js:187 | The offsets of a template's references strictly increase. |
| TemplateReferences.ListReferences | linters/i18n.js:172-200 | `listReferences` returns the references of a template. Their offsets are those of `{{` and strictly increase. |
| TemplateReferences.AllReferences | linters/i18n.js:202-206 | A reference is among all the templates' references exactly when it is among some template's references. |
| TemplateReferences.AllReferencesAppend | linters/i18n.js:202-206 | The references of two runs of templates are those of the first run, then those of the second, so they come file after file. |
| TemplateReferences.AllReferencesOne | linters/i18n.js:204-205 | A single template contributes exactly its own references, once each and in match order. |
| Flatten.FlattenIntoLeaves | linters/i18n.js:217-226 | `flattenKeys` writes exactly the leaves of the value, in document order, into the accumulator. Each leaf goes under its ancestry joined by `.`. Objects and arrays are descended into, and `null` is a leaf. |
| Flatten.FlattenKeysGet | linters/i18n.js:217-226 | A key is in the flattened file exactly when some leaf's path joins to it, and it holds the value of the last such leaf. |
| Flatten.FlattenKeysExact | linters/i18n.js:217-226 | When no two leaf paths join to the same key, the flattened file is exactly the leaves in document order and nothing else. |
| Text.DecimalStringValue | linters/i18n.js:219-220 | An array element's key segment, the index as `forOwn` names it, consists of decimal digits, reads back as that index, and has no leading zero unless the index is 0. |
| Flatten.FlattenKeysScalars | linters/i18n.js:223 | The flattened file holds no object or array value. |
| Locales.LocaleIdOfPath | linters/i18n.js:232 | The basename of a locale's path, without `.json`, is the locale id again. |
| Locales.LintRuleURL | linters/i18n.js:256-258 | The rule URL is the htmllint options page followed by the rule name. |
| Locales.DefaultLocale | linters/i18n.js:246-250 | The default locale is the first id containing `.default`. When there is none, no id contains it. |
| Locales.IsHTMLKeyIff | linters/i18n.js:152-161 | A key is an HTML key exactly when it ends with `_html`, or with `_html.` followed by `zero`, `one`, `two` or `other`. |
| Locales.LocalePairs | linters/i18n.js:228-236 | Each locale file gives the pair of its basename id and its flattened contents, in file order. |
| Locales.LoadTranslationsGet | linters/i18n.js:238-244 | The catalogue lists every file's id exactly once. Each id holds the translations of the last file with that id. |
| Dict.PutAllGet | linters/i18n.js:243 | After a run of assignments, a key holds the last value assigned to it, or its old value if none was. |
| Passes.TestDefaultLocale | linters/i18n.js:36-47 | The check makes exactly one call. It is a success carrying the default locale's file when there is a default, and a failure with no file otherwise. |
| Passes.TestReferencedKeys | linters/i18n.js:49-73 | The check makes one call per reference, in order, with the reference's file and index. A call is a success exactly when the default locale has a truthy value at the key. The message names the key and the default locale. |
| Passes.NoDefaultEveryReferenceFails | linters/i18n.js:55-58 | Without a default locale, every reference fails, unless a locale is literally named `undefined`. |
| Passes.Difference | linters/i18n.js:87 | `_.difference` keeps exactly the elements of the first list that are absent from the second. |
| Passes.DifferenceAppend | linters/i18n.js:87-88 | `_.difference` keeps the first list's order and repeats: one more element at the end of the first list ends the result too, unless the second list holds it. The `Missing entries` list comes out in the default's key order. |
| Passes.LocaleReportsShape | linters/i18n.js:84-110 | A non-default locale gets one or two calls, all carrying its file and no index. Every call passes exactly when it has the default's keys, and then the single call is the success `'id' has all the entries present in 'default'`. Otherwise every call fails. |
| Passes.LocaleReportsMessages | linters/i18n.js:87-104 | The first call is `Missing entries found:` with the default's absent keys quoted and comma-joined, exactly when there are any. The last call is `Extra entries found:` with the locale's surplus keys, exactly when there are any. A differing locale gets one failure per non-empty list and nothing else. |
| Passes.MismatchReportsAppend | linters/i18n.js:81-110 | The calls for two runs of locales are those of the first run, then those of the second, so the check reports locale after locale in catalogue order. |
| Passes.MismatchReportsOne | linters/i18n.js:81-110 | Each locale gets its own calls, checked against the default's keys, and the default locale gets none. |
| Passes.MismatchAllPass | linters/i18n.js:75-114 | The key check passes exactly when every locale other than the default has the same keys as the default. |
| Passes.HtmlEntries | linters/i18n.js:120-130 | HTML linting runs on exactly the HTML keys of every locale, the default included. |
| Passes.LocaleHtmlEntriesAppend | linters/i18n.js:121-129 | A locale's HTML entries follow its key order: two runs of keys give their entries one run after the other. |
| Passes.LocaleHtmlEntriesOne | linters/i18n.js:121-123 | One translation gives exactly one entry, with its locale, key and value, if its key is an HTML key, and none otherwise. |
| Passes.HtmlEntriesOne | linters/i18n.js:120-130 | A catalogue of one locale has exactly that locale's HTML entries. |
| Passes.HtmlEntriesAppend | linters/i18n.js:120-130 | The catalogue's HTML entries come locale after locale: two runs of locales give their entries one run after the other. |
| Passes.TestHTML | linters/i18n.js:116-150 | There is one call per HTML entry, in the entries' order, carrying the entry locale's file. It is a failure exactly when htmllint reports issues, and then it names the first issue's rule URL. |
| Passes.HTMLAllPass | linters/i18n.js:132-148 | The HTML check passes exactly when htmllint finds nothing in any HTML translation. |
| Passes.RunAllPass | linters/i18n.js:29-34 | Every call of the four checks is a success exactly when all of these hold: the theme has a default locale; every referenced key has a truthy value in it; every other locale has exactly its keys; htmllint finds nothing. |
| Passes.Lint | linters/i18n.js:29-34 | The linter on a theme's files counts one check per call and passes exactly when the theme is consistent. It lists the failing calls' messages grouped by file, in first-seen order. |
| ReporterLog.Success | reporter.js:13-15 | `success` appends one triple. An omitted file or index reads as `null`, and the failures are untouched. |
| ReporterLog.Failure | reporter.js:17-19 | `failure` appends one triple. An omitted file or index stays `undefined`, and the successes are untouched. |
| ReporterLog.ChecksRunCounts | reporter.js:22 | Every logged call counts one more check run. |
| ReporterLog.Output | reporter.js:21-46 | The checks run equal the failures plus the successes. The run passed exactly when nothing failed, and then nothing is listed. Otherwise one group per file is listed with its failure messages. |
| ReporterLog.GroupByWithLabel | reporter.js:37 | The failure groups partition the failures by file. A file has a group exactly when some failure carries it, and the group holds those failures in their original order. |
| ReporterLog.GroupByOrder | reporter.js:37-45 | Groups come in the order their files first appear among the failures. |
| ReporterLog.GroupByDistinct | reporter.js:37 | No file has two groups. |
| ReporterLog.RecordLogs | reporter.js:13-19 | Recording a run of calls appends the passing calls' triples to the successes and the failing calls' triples to the failures, each in call order. |
| ReporterLog.RecordEntries | reporter.js:13-19 | The k-th call lands at its rank among the calls of its kind. A failing call's file and index stay `undefined` when omitted; a passing call's read as `null`. |
| ReporterLog.RecordCounts | reporter.js:22 | Recording a run of calls adds one check per call and one failure per failing call. |
| ReporterLog.FailCountZero | reporter.js:26 | A run has no failures exactly when every call passed. |
| LinterExamples.FlattenNested | test/linters/i18n_test.js:102-130 | `{product: {card: {title: ...}}}` flattens to the single key `product.card.title`. |
| LinterExamples.DefaultLocaleFile | test/linters/i18n_test.js:34-49 | The default locale's file is `/path/to/theme/locales/en.default.json`, and its name gives back `en.default`. |
| LinterExamples.MissingReferenceReported | test/linters/i18n_test.js:53-75 | A reference to a key absent from an empty default locale is one failure, at the reference's file and offset 0. |
| LinterExamples.PluralReferenceKey | test/linters/i18n_test.js:77-88 | The template `{{ "product.inventory_with_count" \| t: count: 1 }}` has one reference, at offset 0, to `product.inventory_with_count.other`. |
| LinterExamples.PluralMissingReported | test/linters/i18n_test.js:77-100 | Against an empty default locale, that reference is the single failure `'product.inventory_with_count.other' does not have a matching entry in 'en.default'`, at the template's file and offset 0. |
| LinterExamples.MissingEntriesReported | test/linters/i18n_test.js:165-181 | A French file lacking `hello` and `bye` gets the single failure `Missing entries found: 'hello', 'bye'`. |
| LinterExamples.MatchingEntriesReported | test/linters/i18n_test.js:201-220 | A French file with the default's keys gets the single success `'fr' has all the entries present in 'en.default'`. |
| LinterExamples.HTMLKeyPluralExample | test/linters/i18n_test.js:261-283 | `product_count_html.other` is an HTML key. |
| LinterExamples.PluralFormAloneNotHTML | linters/i18n.js:152-161 | The key `other` on its own is not an HTML key: there is no segment before it. |
| LinterExamples.InvalidHTMLReported | test/linters/i18n_test.js:261-283 | Invalid HTML under `product_count_html.other` is one failure naming the `tag-close` rule URL, at the default locale's file. |

## Left out

- File I/O and globbing are not modelled: `listLiquidFiles`, `listTranslationFiles` and `fs.readFile`. Locale files enter as `LocaleFile` values (path and parsed JSON) and templates as `Template` values (path and text), in the order the glob would list them.
- `JSON.parse` is not modelled: locale files enter already parsed, as `Json` values whose objects list their members in order.
- htmllint is a foreign library. It enters as a parameter `lint` giving the issues found in a value. Its rule options (`HTML_LINT_RULES`) are part of that parameter.
- Promises, `Promise.all` and `_.memoize` are not modelled. Each check runs on one fully loaded snapshot, and the calls come in the order the code issues them.
- cli.js and index.js are not part of this model. They parse arguments, chain the linter and set the exit code.
- `Reporter.output`'s stream writes and chalk colours are not modelled. `Output` yields what is printed: the verdict, the number of checks run, and each file with its failure messages.
- Text is a sequence of characters, not UTF-16 code units. Whitespace and line terminators are fixed predicates that follow JavaScript's `\s` and line-terminator sets.
- JavaScript engine quirks are not modelled:
  - property lookups that reach the prototype chain (`constructor` as a translation key);
  - the special `__proto__` key in `flattenKeys`;
  - integer-like object keys being listed first by `Object.keys`, `_.forOwn` and `_.groupBy`.
- `Locales.LocalePath` joins root, `locales` and the file name with `/`; `path.join`'s normalisation of `..`, `.` and repeated slashes is not modelled.
- `JsonValue.Json` keeps numbers as exact reals, so IEEE-754 rounding is not modelled. A literal such as `1e-400`, which `JSON.parse` rounds to `0` and JavaScript finds falsy, is non-zero and so truthy in `JsonValue.Truthy`.
- `JsonValue.Json` lets an object list the same member name twice, which `JSON.parse` never produces: a later duplicate replaces the earlier one. No lemma depends on the names being distinct, except `Flatten.FlattenKeysExact`, which asks for distinct joined paths outright.
- The scanner test at test/linters/translation_filter_scanner_test.js:34-48 expects no match for `{{ "now" | time_tag: ... }}`. The pattern, however, only requires the filter name to start with `t`, so the code reports the key `now`. The model follows the code, and `ScannerExamples.TimeTagIsMatched` proves the match the code makes.
- With no default locale, `translations[undefined]` reads the property named `undefined`, and the messages print `undefined`. The model does both (`Passes.DefaultName`), so `Passes.NoDefaultEveryReferenceFails` needs the catalogue to have no locale of that name.

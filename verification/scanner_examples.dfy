/** The scanner on the texts its own tests use. */
module ScannerExamples {
  import opened Optional
  import opened Text
  import opened GlobalExec
  import opened Scanner

  // ---------------------------------------------------------------- positions in a text

  /** `s` continues with `r` from position `i`. */
  predicate AtOffset(s: string, i: nat, r: string) {
    i <= |s| && s[i..] == r
  }

  /** `x + y` at `i` is `x` at `i` and `y` at `j`, where `x` ends. */
  lemma HasAtSplit(s: string, i: nat, x: string, y: string, j: nat)
    requires HasAt(s, i, x + y) && j == i + |x|
    ensures HasAt(s, i, x) && HasAt(s, j, y)
  {
    assert s[i..j] == (x + y)[..|x|];
    assert s[j..j + |y|] == (x + y)[|x|..];
  }

  lemma HasAtChars(s: string, i: nat, t: string)
    requires HasAt(s, i, t)
    ensures forall k :: 0 <= k < |t| ==> s[i + k] == t[k]
  {
    forall k | 0 <= k < |t| ensures s[i + k] == t[k] {
      assert s[i..i + |t|][k] == s[i + k];
    }
  }

  /** No `{` in `[i, j)`. */
  predicate NoBrace(s: string, i: nat, j: nat) {
    forall p :: i <= p < j && p < |s| ==> s[p] != '{'
  }

  lemma HasAtNoBrace(s: string, i: nat, t: string)
    requires HasAt(s, i, t)
    requires forall k :: 0 <= k < |t| ==> t[k] != '{'
    ensures NoBrace(s, i, i + |t|)
  {
    HasAtChars(s, i, t);
    forall p | i <= p < i + |t| && p < |s| ensures s[p] != '{' {
      assert s[p] == t[p - i];
    }
  }

  // ---------------------------------------------------------------- a reference, in general

  /** `{{`, a space and the opening quote. */
  function Front(q: char): (t: string)
    ensures |t| == 4
  {
    "{{ " + [q]
  }

  /** The closing quote, then ` | `. */
  function Mid(q: char): (t: string)
    ensures |t| == 4
  {
    [q] + " | "
  }

  /** The text `{{ q key q | name` a translation reference opens with. */
  function Opening(q: char, key: string, name: string): (t: string)
    ensures |t| == |key| + |name| + 8
  {
    Front(q) + key + Mid(q) + name
  }

  /** A key the pattern captures whole between two quotes `q`. */
  predicate QuotableKey(q: char, key: string) {
    && IsQuote(q)
    && |key| > 0
    && forall k :: 0 <= k < |key| ==> key[k] != q && !IsLineTerminator(key[k])
  }

  /** The closing tails the sample's arguments end with: ` }}`, or ` |` before another filter. */
  predicate Closer(close: string) {
    close == " }}" || close == " |"
  }

  /** Arguments the lazy group captures whole when a closing tail follows: no `|`, `}` or line terminator, no trailing whitespace. */
  predicate PlainArgs(args: string) {
    && (forall k :: 0 <= k < |args| ==> args[k] != '|' && args[k] != '}' && !IsLineTerminator(args[k]))
    && (|args| > 0 ==> !IsWhitespace(args[|args| - 1]))
  }

  /** A quotable key written at `from` and closed by its quote: the key run stops exactly at that quote. */
  lemma QuotedKeyEnd(s: string, from: nat, q: char, key: string)
    requires QuotableKey(q, key)
    requires HasAt(s, from, key) && from + |key| < |s| && s[from + |key|] == q
    ensures KeyEnd(s, from, q) == from + |key|
    ensures s[from..from + |key|] == key
  {
    HasAtChars(s, from, key);
  }

  /** The four pieces of an opening, each at its own offset. */
  lemma OpeningParts(s: string, o: nat, q: char, key: string, name: string)
    requires HasAt(s, o, Opening(q, key, name))
    ensures HasAt(s, o, Front(q)) && HasAt(s, o + 4, key)
    ensures HasAt(s, o + 4 + |key|, Mid(q)) && HasAt(s, o + 8 + |key|, name)
  {
    HasAtSplit(s, o, Front(q) + key + Mid(q), name, o + 8 + |key|);
    HasAtSplit(s, o, Front(q) + key, Mid(q), o + 4 + |key|);
    HasAtSplit(s, o, Front(q), key, o + 4);
  }

  lemma QuoteNotWhitespace(q: char)
    requires IsQuote(q)
    ensures !IsWhitespace(q) && !IsLineTerminator(q)
  {
  }

  /** After `{{ ` and a quote, whitespace skipping stops at the quote. */
  lemma FrontPositions(s: string, o: nat, q: char)
    requires IsQuote(q) && HasAt(s, o, Front(q))
    ensures s[o] == '{' && s[o + 1] == '{' && s[o + 3] == q
    ensures SkipWhitespace(s, o + 2) == o + 3
  {
    HasAtChars(s, o, Front(q));
    QuoteNotWhitespace(q);
  }

  /** After the closing quote at `p`, ` | ` and a `t`: `|` at `p + 2` and the filter name at `p + 4`. */
  lemma MidPositions(s: string, p: nat, q: char)
    requires HasAt(s, p, Mid(q)) && p + 4 < |s| && s[p + 4] == 't'
    ensures s[p] == q && s[p + 2] == '|'
    ensures SkipWhitespace(s, p + 1) == p + 2 && SkipWhitespace(s, p + 3) == p + 4
  {
    HasAtChars(s, p, Mid(q));
  }

  /** A filter name `t` or `translate` starts with `t`. */
  lemma NameStart(s: string, d: nat, name: string)
    requires (name == "t" || name == "translate") && HasAt(s, d, name)
    ensures d < |s| && s[d] == 't'
  {
    assert s[d..d + |name|][0] == s[d];
  }

  /** Where an opening `{{ q key q | t` at `o` puts each position the scanner computes. */
  predicate Opened(s: string, o: nat, q: char, key: string) {
    && o + 8 + |key| < |s| && s[o] == '{' && s[o + 1] == '{'
    && SkipWhitespace(s, o + 2) == o + 3 && s[o + 3] == q && IsQuote(q)
    && KeyEnd(s, o + 4, q) == o + 4 + |key| && s[o + 4 + |key|] == q && |key| > 0
    && s[o + 4..o + 4 + |key|] == key
    && SkipWhitespace(s, o + 5 + |key|) == o + 6 + |key| && s[o + 6 + |key|] == '|'
    && SkipWhitespace(s, o + 7 + |key|) == o + 8 + |key| && s[o + 8 + |key|] == 't'
  }

  /** The opening of a reference puts each position the scanner computes where the text says. */
  lemma OpeningShape(s: string, o: nat, q: char, key: string, name: string, d: nat)
    requires QuotableKey(q, key) && (name == "t" || name == "translate")
    requires HasAt(s, o, Opening(q, key, name)) && d == o + 8 + |key|
    ensures Opened(s, o, q, key)
    ensures HasAt(s, d, name)
  {
    OpeningParts(s, o, q, key, name);
    FrontPositions(s, o, q);
    NameStart(s, d, name);
    MidPositions(s, o + 4 + |key|, q);
    QuotedKeyEnd(s, o + 4, q, key);
  }

  /** `translate` spelt out: its tail is `ranslate`. */
  lemma TranslateTail(s: string, d: nat)
    requires HasAt(s, d, "translate")
    ensures HasAt(s, d + 1, "ranslate")
  {
    assert "translate" == "t" + "ranslate";
    HasAtSplit(s, d, "t", "ranslate", d + 1);
  }

  /** The filter name `t` or `translate` at `d`, followed by anything but `r`, ends where it is spelt to end. */
  lemma FilterNameIs(s: string, d: nat, name: string, t: nat)
    requires name == "t" || name == "translate"
    requires HasAt(s, d, name) && t == d + |name| && t < |s| && s[t] != 'r'
    ensures FilterNameEnd(s, d) == t
  {
    HasAtChars(s, d, name);
    if name == "translate" {
      TranslateTail(s, d);
    } else if d + 9 <= |s| {
      assert s[d + 1..d + 9][0] == s[d + 1];
    }
  }

  /** The pattern matches at `o`, the match ends at `end` and captures `g`. */
  predicate MatchesAs(s: string, o: nat, end: nat, g: Groups) {
    MatchAt(s, o).Some? && MatchAt(s, o).value.end == end && MatchAt(s, o).value.groups == g
  }

  /** With the opening's positions, the filter name's end and the arguments group known, so is the match. */
  lemma MatchFromParts(s: string, o: nat, q: char, key: string, d: nat, t: nat, args: Option<string>, end: nat)
    requires Opened(s, o, q, key) && d == o + 8 + |key|
    requires FilterNameEnd(s, d) == t && ArgsGroup(s, t) == (args, end)
    ensures MatchesAs(s, o, end, Groups(q, key, args))
  {
    var a, b := o + 3, o + 4 + |key|;
    MatchAtPositions(s, o, a, b, o + 6 + |key|, d);
    assert s[a + 1..b] == key;
    assert ArgsGroup(s, FilterNameEnd(s, d)) == (args, end);
  }

  /**
   An opening followed by anything but the `r` of a longer filter name is
   matched with whatever the arguments group makes of the rest.
   */
  lemma OpeningMatch(s: string, o: nat, q: char, key: string, name: string, t: nat, args: Option<string>, end: nat)
    requires QuotableKey(q, key) && (name == "t" || name == "translate")
    requires HasAt(s, o, Opening(q, key, name))
    requires t == o + |Opening(q, key, name)| && t < |s| && s[t] != 'r'
    requires ArgsGroup(s, t) == (args, end)
    ensures MatchesAs(s, o, end, Groups(q, key, args))
  {
    var d := o + 8 + |key|;
    OpeningNamed(s, o, q, key, name, d, t);
    MatchFromParts(s, o, q, key, d, t, args, end);
  }

  /** The opening's positions, and the end of its filter name when no `r` follows the name. */
  lemma OpeningNamed(s: string, o: nat, q: char, key: string, name: string, d: nat, t: nat)
    requires QuotableKey(q, key) && (name == "t" || name == "translate")
    requires HasAt(s, o, Opening(q, key, name)) && d == o + 8 + |key|
    requires t == o + |Opening(q, key, name)| && t < |s| && s[t] != 'r'
    ensures Opened(s, o, q, key) && FilterNameEnd(s, d) == t
  {
    OpeningShape(s, o, q, key, name, d);
    FilterNameIs(s, d, name, t);
  }

  /**
   A reference whose filter name is followed by neither `:` nor the `r` of a
   longer name is matched with no arguments, and the match ends right after
   the filter name.
   */
  lemma OpeningNoArgs(s: string, o: nat, q: char, key: string, name: string, t: nat)
    requires QuotableKey(q, key) && (name == "t" || name == "translate")
    requires HasAt(s, o, Opening(q, key, name))
    requires t == o + |Opening(q, key, name)| && t < |s| && s[t] != ':' && s[t] != 'r'
    ensures MatchesAs(s, o, t, Groups(q, key, None))
  {
    OpeningMatch(s, o, q, key, name, t, None, t);
  }

  /** In plain arguments every position before their end skips whitespace onto an argument character. */
  lemma PlainArgsNoClose(s: string, from: nat, args: string, j: nat)
    requires PlainArgs(args)
    requires HasAt(s, from, args) && j == from + |args|
    ensures forall k :: from <= k < j ==> CloseAt(s, k).None?
    ensures LineEnd(s, from) >= j
  {
    HasAtChars(s, from, args);
    forall k | from <= k < j ensures CloseAt(s, k).None? {
      var p := SkipWhitespace(s, k);
      assert s[j - 1] == args[|args| - 1];
      assert p < j;
      assert s[p] == args[p - from];
    }
  }

  /**
   `:`, plain arguments and a closing tail after the filter name: the lazy
   group captures exactly the arguments and the match ends after the `}}` or
   the `|`.
   */
  lemma ArgsGroupPlain(s: string, t: nat, args: string, close: string, e: nat)
    requires PlainArgs(args) && Closer(close)
    requires HasAt(s, t, ":" + args + close) && e == t + 1 + |args| + |close|
    ensures t < |s| && s[t] == ':'
    ensures ArgsGroup(s, t) == (Some(args), e)
  {
    var j := t + 1 + |args|;
    ArgsTailParts(s, t, args, close, j);
    ClosingTail(s, j, close);
    PlainArgsNoClose(s, t + 1, args, j);
    LazyArgsEndIs(s, t + 1, LineEnd(s, t + 1), j);
    assert s[t + 1..j] == args;
  }

  /** `:`, the arguments and the closing tail, each at its place. */
  lemma ArgsTailParts(s: string, t: nat, args: string, close: string, j: nat)
    requires HasAt(s, t, ":" + args + close) && j == t + 1 + |args|
    ensures t < |s| && s[t] == ':' && HasAt(s, t + 1, args) && HasAt(s, j, close)
  {
    HasAtSplit(s, t, ":" + args, close, j);
    HasAtSplit(s, t, ":", args, t + 1);
    HasAtChars(s, t, ":");
  }

  /** ` }}` or ` |` closes the arguments: the closing tail matches there and ends after the braces or the bar. */
  lemma ClosingTail(s: string, j: nat, close: string)
    requires Closer(close) && HasAt(s, j, close)
    ensures CloseAt(s, j) == Some(j + |close|)
  {
    HasAtChars(s, j, close);
    SkipWhitespaceUnique(s, j, j + 1);
  }

  /**
   A reference whose filter name is followed by `:`, plain arguments and
   ` }}` or ` |` is matched with exactly those arguments, up to and including
   the closing braces or bar.
   */
  lemma OpeningArgs(s: string, o: nat, q: char, key: string, name: string, args: string, close: string, t: nat, e: nat)
    requires QuotableKey(q, key) && (name == "t" || name == "translate") && PlainArgs(args) && Closer(close)
    requires HasAt(s, o, Opening(q, key, name) + (":" + args + close))
    requires t == o + |Opening(q, key, name)| && e == t + 1 + |args| + |close|
    ensures MatchesAs(s, o, e, Groups(q, key, Some(args)))
  {
    HasAtSplit(s, o, Opening(q, key, name), ":" + args + close, t);
    OpeningThenArgs(s, o, q, key, name, args, close, t, e);
  }

  lemma OpeningThenArgs(s: string, o: nat, q: char, key: string, name: string, args: string, close: string, t: nat, e: nat)
    requires QuotableKey(q, key) && (name == "t" || name == "translate") && PlainArgs(args) && Closer(close)
    requires HasAt(s, o, Opening(q, key, name))
    requires t == o + |Opening(q, key, name)| && e == t + 1 + |args| + |close|
    requires HasAt(s, t, ":" + args + close)
    ensures MatchesAs(s, o, e, Groups(q, key, Some(args)))
  {
    ArgsGroupPlain(s, t, args, close, e);
    OpeningMatch(s, o, q, key, name, t, Some(args), e);
  }

  /** Scanning passes over a stretch without `{` and reports the match that follows it. */
  lemma ScanStep(s: string, i: nat, o: nat, end: nat, g: Groups)
    requires i <= o && NoBrace(s, i, o)
    requires MatchesAs(s, o, end, g)
    ensures ScanFrom(Pattern(s), |s|, i) == [Hit(o, end, g)] + ScanFrom(Pattern(s), |s|, end)
  {
    ScanSkipText(s, i, o);
    ScanMatchHere(s, o);
    var m := MatchAt(s, o).value;
    assert m == Hit(o, end, g);
  }

  // ---------------------------------------------------------------- a template, line by line

  /** No `{` anywhere in `x`. */
  predicate BraceFree(x: string) {
    forall k :: 0 <= k < |x| ==> x[k] != '{'
  }

  /** `x + y` from `i` on is `x` at `i` and `y` from `j` on, where `x` ends. */
  lemma AtOffsetSplit(s: string, i: nat, x: string, y: string, j: nat)
    requires AtOffset(s, i, x + y) && j == i + |x|
    ensures HasAt(s, i, x) && AtOffset(s, j, y)
  {
    assert s[i..j] == (x + y)[..|x|];
    assert s[j..] == (x + y)[|x|..];
  }

  /** Scanning passes over text without `{`. */
  lemma SkipFree(s: string, i: nat, x: string, j: nat)
    requires HasAt(s, i, x) && BraceFree(x) && j == i + |x|
    ensures ScanFrom(Pattern(s), |s|, i) == ScanFrom(Pattern(s), |s|, j)
  {
    HasAtNoBrace(s, i, x);
    ScanSkipText(s, i, j);
  }

  /** Text without `{` before the rest of a template adds no match. */
  lemma GapStep(s: string, i: nat, gap: string, rest: string, j: nat)
    requires AtOffset(s, i, gap + rest) && BraceFree(gap) && j == i + |gap|
    ensures ScanFrom(Pattern(s), |s|, i) == ScanFrom(Pattern(s), |s|, j)
    ensures AtOffset(s, j, rest)
  {
    AtOffsetSplit(s, i, gap, rest, j);
    SkipFree(s, i, gap, j);
  }

  /** A template that ends in text without `{` has no match left in that text. */
  lemma GapEnd(s: string, i: nat, gap: string)
    requires AtOffset(s, i, gap) && BraceFree(gap)
    ensures ScanFrom(Pattern(s), |s|, i) == []
  {
    var j := |s|;
    assert s[i..i + |gap|] == s[i..];
    SkipFree(s, i, gap, j);
    ScanPastEnd(s, j);
  }

  /**
   A line holding a reference without arguments, then text without `{`:
   scanning reports the reference and resumes after that text.
   */
  lemma NoArgsLine(s: string, o: nat, q: char, key: string, name: string, after: string, rest: string, t: nat, e: nat)
    requires QuotableKey(q, key) && (name == "t" || name == "translate")
    requires |after| > 0 && after[0] != ':' && after[0] != 'r' && BraceFree(after)
    requires AtOffset(s, o, (Opening(q, key, name) + after) + rest)
    requires t == o + |Opening(q, key, name)| && e == t + |after|
    ensures ScanFrom(Pattern(s), |s|, o) == [Hit(o, t, Groups(q, key, None))] + ScanFrom(Pattern(s), |s|, e)
    ensures AtOffset(s, e, rest)
  {
    AtOffsetSplit(s, o, Opening(q, key, name) + after, rest, e);
    HasAtSplit(s, o, Opening(q, key, name), after, t);
    assert s[t] == s[t..t + |after|][0];
    OpeningNoArgs(s, o, q, key, name, t);
    ScanStep(s, o, o, t, Groups(q, key, None));
    SkipFree(s, t, after, e);
  }

  /**
   A reference with plain arguments closed by ` }}` or ` |`: scanning reports
   it and resumes right after the braces or the bar.
   */
  lemma ArgsLine(s: string, o: nat, q: char, key: string, name: string, args: string, close: string, rest: string, e: nat)
    requires QuotableKey(q, key) && (name == "t" || name == "translate") && PlainArgs(args) && Closer(close)
    requires AtOffset(s, o, (Opening(q, key, name) + (":" + args + close)) + rest)
    requires e == o + |Opening(q, key, name)| + 1 + |args| + |close|
    ensures ScanFrom(Pattern(s), |s|, o) == [Hit(o, e, Groups(q, key, Some(args)))] + ScanFrom(Pattern(s), |s|, e)
    ensures AtOffset(s, e, rest)
  {
    var t := o + |Opening(q, key, name)|;
    AtOffsetSplit(s, o, Opening(q, key, name) + (":" + args + close), rest, e);
    OpeningArgs(s, o, q, key, name, args, close, t, e);
    ScanStep(s, o, o, e, Groups(q, key, Some(args)));
  }

  // ---------------------------------------------------------------- the sample of six references

  /** A line break and the eight spaces the sample's lines are indented by. */
  const Indent: string := "\n        "

  /** What follows the last line: a line break and six spaces. */
  const Outdent: string := "\n      "

  const SimpleLine: string := Opening('"', "simple.key", "t") + " }}"
  const InterpolatedLine: string := Opening('"', "interpolated.key", "t") + (":" + " foo: \"bar\"" + " }}")
  const PluralizedLine: string := Opening('"', "pluralized.key", "t") + (":" + " count: 3" + " }}")
  const VerboseLine: string := Opening('\'', "verbose.key", "translate") + " }}"
  const VerboseInterpolatedLine: string := Opening('\'', "verbose.interpolated.key", "translate") + (":" + " foo: \"bar\"" + " }}")
  const ChainedLine: string := Opening('\'', "chained.key", "t") + " | escape }}"

  /** The sample from its last line back: each continuation is a line, the indent, and the next continuation. */
  const FromChained: string := ChainedLine + Outdent
  const FromVerboseInterpolated: string := VerboseInterpolatedLine + (Indent + FromChained)
  const FromVerbose: string := VerboseLine + (Indent + FromVerboseInterpolated)
  const FromPluralized: string := PluralizedLine + (Indent + FromVerbose)
  const FromInterpolated: string := InterpolatedLine + (Indent + FromPluralized)
  const FromSimple: string := SimpleLine + (Indent + FromInterpolated)

  /** The template of six references: simple, with arguments, pluralised, `translate`, `translate` with arguments, chained. */
  const Sample: string := Indent + FromSimple

  /** The six references as the pattern matches them. */
  const SampleHits: seq<RawMatch> :=
    [Hit(9, 28, Groups('"', "simple.key", None)),
     Hit(40, 80, Groups('"', "interpolated.key", Some(" foo: \"bar\""))),
     Hit(89, 125, Groups('"', "pluralized.key", Some(" count: 3"))),
     Hit(134, 162, Groups('\'', "verbose.key", None)),
     Hit(174, 230, Groups('\'', "verbose.interpolated.key", Some(" foo: \"bar\""))),
     Hit(239, 259, Groups('\'', "chained.key", None))]

  lemma SampleKeys()
    ensures QuotableKey('"', "simple.key") && QuotableKey('"', "interpolated.key") && QuotableKey('"', "pluralized.key")
  {
  }

  lemma SampleVerboseKeys()
    ensures QuotableKey('\'', "verbose.key") && QuotableKey('\'', "verbose.interpolated.key") && QuotableKey('\'', "chained.key")
  {
  }

  lemma SampleArgs()
    ensures PlainArgs(" foo: \"bar\"") && PlainArgs(" count: 3")
  {
  }

  lemma SampleGaps()
    ensures BraceFree(Indent) && BraceFree(Outdent) && BraceFree(" }}") && BraceFree(" | escape }}")
  {
  }

  /** Each continuation of the sample is its first line, the indent, and the next continuation. */
  lemma SampleContinuations()
    ensures FromSimple == SimpleLine + (Indent + FromInterpolated)
    ensures FromInterpolated == InterpolatedLine + (Indent + FromPluralized)
    ensures FromPluralized == PluralizedLine + (Indent + FromVerbose)
    ensures FromVerbose == VerboseLine + (Indent + FromVerboseInterpolated)
    ensures FromVerboseInterpolated == VerboseInterpolatedLine + (Indent + FromChained)
  {
  }

  /** The sample's lines, each as text at a fixed offset: the reference it holds, and where the next line starts. */
  lemma SimpleLineScan(s: string, rest: string)
    requires AtOffset(s, 9, SimpleLine + (Indent + rest))
    ensures ScanFrom(Pattern(s), |s|, 9) == [Hit(9, 28, Groups('"', "simple.key", None))] + ScanFrom(Pattern(s), |s|, 40)
    ensures AtOffset(s, 40, rest)
  {
    SampleKeys();
    SampleGaps();
    NoArgsLine(s, 9, '"', "simple.key", "t", " }}", Indent + rest, 28, 31);
    GapStep(s, 31, Indent, rest, 40);
  }

  lemma InterpolatedLineScan(s: string, rest: string)
    requires AtOffset(s, 40, InterpolatedLine + (Indent + rest))
    ensures ScanFrom(Pattern(s), |s|, 40) == [Hit(40, 80, Groups('"', "interpolated.key", Some(" foo: \"bar\"")))] + ScanFrom(Pattern(s), |s|, 89)
    ensures AtOffset(s, 89, rest)
  {
    SampleKeys();
    SampleArgs();
    SampleGaps();
    ArgsLine(s, 40, '"', "interpolated.key", "t", " foo: \"bar\"", " }}", Indent + rest, 80);
    GapStep(s, 80, Indent, rest, 89);
  }

  lemma PluralizedLineScan(s: string, rest: string)
    requires AtOffset(s, 89, PluralizedLine + (Indent + rest))
    ensures ScanFrom(Pattern(s), |s|, 89) == [Hit(89, 125, Groups('"', "pluralized.key", Some(" count: 3")))] + ScanFrom(Pattern(s), |s|, 134)
    ensures AtOffset(s, 134, rest)
  {
    SampleKeys();
    SampleArgs();
    SampleGaps();
    ArgsLine(s, 89, '"', "pluralized.key", "t", " count: 3", " }}", Indent + rest, 125);
    GapStep(s, 125, Indent, rest, 134);
  }

  lemma VerboseLineScan(s: string, rest: string)
    requires AtOffset(s, 134, VerboseLine + (Indent + rest))
    ensures ScanFrom(Pattern(s), |s|, 134) == [Hit(134, 162, Groups('\'', "verbose.key", None))] + ScanFrom(Pattern(s), |s|, 174)
    ensures AtOffset(s, 174, rest)
  {
    SampleVerboseKeys();
    SampleGaps();
    NoArgsLine(s, 134, '\'', "verbose.key", "translate", " }}", Indent + rest, 162, 165);
    GapStep(s, 165, Indent, rest, 174);
  }

  lemma VerboseInterpolatedLineScan(s: string, rest: string)
    requires AtOffset(s, 174, VerboseInterpolatedLine + (Indent + rest))
    ensures ScanFrom(Pattern(s), |s|, 174) == [Hit(174, 230, Groups('\'', "verbose.interpolated.key", Some(" foo: \"bar\"")))] + ScanFrom(Pattern(s), |s|, 239)
    ensures AtOffset(s, 239, rest)
  {
    SampleVerboseKeys();
    SampleArgs();
    SampleGaps();
    ArgsLine(s, 174, '\'', "verbose.interpolated.key", "translate", " foo: \"bar\"", " }}", Indent + rest, 230);
    GapStep(s, 230, Indent, rest, 239);
  }

  /** The chained `escape` filter belongs to no match, and nothing follows the last line. */
  lemma ChainedLineScan(s: string)
    requires AtOffset(s, 239, FromChained)
    ensures ScanFrom(Pattern(s), |s|, 239) == [Hit(239, 259, Groups('\'', "chained.key", None))] + []
  {
    SampleVerboseKeys();
    SampleGaps();
    NoArgsLine(s, 239, '\'', "chained.key", "t", " | escape }}", Outdent, 259, 271);
    GapEnd(s, 271, Outdent);
  }

  /** The first three lines of the sample, one after the other. */
  lemma SampleFirstLines(s: string)
    requires AtOffset(s, 9, FromSimple)
    ensures ScanFrom(Pattern(s), |s|, 9) == [Hit(9, 28, Groups('"', "simple.key", None))] + ScanFrom(Pattern(s), |s|, 40)
    ensures ScanFrom(Pattern(s), |s|, 40) == [Hit(40, 80, Groups('"', "interpolated.key", Some(" foo: \"bar\"")))] + ScanFrom(Pattern(s), |s|, 89)
    ensures ScanFrom(Pattern(s), |s|, 89) == [Hit(89, 125, Groups('"', "pluralized.key", Some(" count: 3")))] + ScanFrom(Pattern(s), |s|, 134)
    ensures AtOffset(s, 134, FromVerbose)
  {
    SampleContinuations();
    SimpleLineScan(s, FromInterpolated);
    InterpolatedLineScan(s, FromPluralized);
    PluralizedLineScan(s, FromVerbose);
  }

  /** The last three lines of the sample, one after the other. */
  lemma SampleLastLines(s: string)
    requires AtOffset(s, 134, FromVerbose)
    ensures ScanFrom(Pattern(s), |s|, 134) == [Hit(134, 162, Groups('\'', "verbose.key", None))] + ScanFrom(Pattern(s), |s|, 174)
    ensures ScanFrom(Pattern(s), |s|, 174) == [Hit(174, 230, Groups('\'', "verbose.interpolated.key", Some(" foo: \"bar\"")))] + ScanFrom(Pattern(s), |s|, 239)
    ensures ScanFrom(Pattern(s), |s|, 239) == [Hit(239, 259, Groups('\'', "chained.key", None))] + []
  {
    SampleContinuations();
    VerboseLineScan(s, FromVerboseInterpolated);
    VerboseInterpolatedLineScan(s, FromChained);
    ChainedLineScan(s);
  }

  /** Six lists, each one element in front of the next, and an empty last one: the first holds the six elements. */
  lemma ChainSix<T>(x0: seq<T>, x1: seq<T>, x2: seq<T>, x3: seq<T>, x4: seq<T>, x5: seq<T>, h0: T, h1: T, h2: T, h3: T, h4: T, h5: T)
    requires x0 == [h0] + x1 && x1 == [h1] + x2 && x2 == [h2] + x3
    requires x3 == [h3] + x4 && x4 == [h4] + x5 && x5 == [h5] + []
    ensures x0 == [h0, h1, h2, h3, h4, h5]
  {
  }

  /**
   The six references of the sample are found in order, each at the offset of
   its `{{`, with the key between the quotes and the arguments after the
   colon.
   */
  lemma SampleIsScanned(s: string)
    requires s == Sample
    ensures Scan(s) == SampleHits
  {
    PatternAnchored(s);
    SampleGaps();
    GapStep(s, 0, Indent, FromSimple, 9);
    SampleFirstLines(s);
    SampleLastLines(s);
    ChainSix(ScanFrom(Pattern(s), |s|, 9), ScanFrom(Pattern(s), |s|, 40), ScanFrom(Pattern(s), |s|, 89),
             ScanFrom(Pattern(s), |s|, 134), ScanFrom(Pattern(s), |s|, 174), ScanFrom(Pattern(s), |s|, 239),
             Hit(9, 28, Groups('"', "simple.key", None)), Hit(40, 80, Groups('"', "interpolated.key", Some(" foo: \"bar\""))), Hit(89, 125, Groups('"', "pluralized.key", Some(" count: 3"))),
             Hit(134, 162, Groups('\'', "verbose.key", None)), Hit(174, 230, Groups('\'', "verbose.interpolated.key", Some(" foo: \"bar\""))), Hit(239, 259, Groups('\'', "chained.key", None)));
  }

  /** What `forEach` hands its callback for the sample: key, arguments and index of each reference. */
  lemma SamplePublished(s: string)
    requires s == Sample
    ensures MapHits(Published, Scan(s)) == SampleMatches
  {
    SampleIsScanned(s);
    SampleHitsPublished(Scan(s));
  }

  /** The six references as `forEach` reports them. */
  const SampleMatches: seq<FilterMatch> :=
    [FilterMatch("simple.key", None, 9),
     FilterMatch("interpolated.key", Some(" foo: \"bar\""), 40),
     FilterMatch("pluralized.key", Some(" count: 3"), 89),
     FilterMatch("verbose.key", None, 134),
     FilterMatch("verbose.interpolated.key", Some(" foo: \"bar\""), 174),
     FilterMatch("chained.key", None, 239)]

  lemma SampleHitsPublished(ms: seq<RawMatch>)
    requires ms == SampleHits
    ensures MapHits(Published, ms) == SampleMatches
  {
    PublishSix(ms);
    assert Published(ms[1]) == SampleMatches[1];
    assert Published(ms[2]) == SampleMatches[2];
    assert Published(ms[4]) == SampleMatches[4];
  }

  lemma PublishSix(ms: seq<RawMatch>)
    requires |ms| == 6
    ensures MapHits(Published, ms)
         == [Published(ms[0]), Published(ms[1]), Published(ms[2]), Published(ms[3]), Published(ms[4]), Published(ms[5])]
  {
  }

  // ---------------------------------------------------------------- single-line templates

  /** The pluralised line of the sample, on its own. */
  const PluralizedTemplate: string := PluralizedLine

  /** The line yields one match, starting at the braces, whose arguments `forEach` passes on unchanged. */
  lemma PluralizedIsMatched(s: string)
    requires s == PluralizedTemplate
    ensures Scan(s) == [Hit(0, 36, Groups('"', "pluralized.key", Some(" count: 3")))]
    ensures MapHits(Published, Scan(s)) == [FilterMatch("pluralized.key", Some(" count: 3"), 0)]
  {
    assert QuotableKey('"', "pluralized.key") && PlainArgs(" count: 3");
    assert s + "" == s;
    ArgsLine(s, 0, '"', "pluralized.key", "t", " count: 3", " }}", "", 36);
    ScanPastEnd(s, 36);
  }

  /** A template that is a single counted reference and nothing else. */
  const InventoryTemplate: string := Opening('"', "product.inventory_with_count", "t") + (":" + " count: 1" + " }}")

  /** The template yields one match at offset 0, carrying the `count:` argument. */
  lemma InventoryIsMatched(s: string)
    requires s == InventoryTemplate
    ensures Scan(s) == [Hit(0, 50, Groups('"', "product.inventory_with_count", Some(" count: 1")))]
  {
    assert QuotableKey('"', "product.inventory_with_count") && PlainArgs(" count: 1");
    assert s + "" == s;
    ArgsLine(s, 0, '"', "product.inventory_with_count", "t", " count: 1", " }}", "", 50);
    ScanPastEnd(s, 50);
  }

  /** A line whose filter is `time_tag`, which merely starts with `t`. */
  const TimeTagLine: string := Opening('"', "now", "t") + "ime_tag: format: 'date' }}"

  const TimeTagTemplate: string := Indent + (TimeTagLine + Outdent)

  /**
   The filter in the template is `time_tag`, not `t`, yet the scanner reports
   the string as a translation key: `\s*\|\s*t` is satisfied by the first
   letter of `time_tag`, and with no `:` straight after it the optional
   argument group is simply skipped.
   */
  lemma TimeTagIsMatched(s: string)
    requires s == TimeTagTemplate
    ensures Scan(s) == [Hit(9, 21, Groups('"', "now", None))]
  {
    assert QuotableKey('"', "now");
    assert BraceFree(Indent) && BraceFree(Outdent) && BraceFree("ime_tag: format: 'date' }}");
    GapStep(s, 0, Indent, TimeTagLine + Outdent, 9);
    NoArgsLine(s, 9, '"', "now", "t", "ime_tag: format: 'date' }}", Outdent, 21, 47);
    GapEnd(s, 47, Outdent);
  }
  // ---------------------------------------------------------------- arguments closed by another filter

  /** A reference whose arguments end at a `|`, directly followed by a second reference. */
  const PipeTemplate: string := Opening('"', "a", "t") + (":" + " x" + " |") + (Opening('"', "b", "t") + " }}")

  /**
   The arguments of the first reference stop at the `|` that closes them
   (the space before it is not captured), the match ends right after that
   bar, and scanning resumes there, so the second reference is reported
   too.
   */
  lemma PipeClosedResumes(s: string)
    requires s == PipeTemplate
    ensures Scan(s) == [Hit(0, 15, Groups('"', "a", Some(" x"))), Hit(15, 25, Groups('"', "b", None))]
  {
    PipeFirst(s);
    PipeSecond(s);
  }

  /** The first reference ends after the bar, where the second one starts. */
  lemma PipeFirst(s: string)
    requires s == PipeTemplate
    ensures ScanFrom(Pattern(s), |s|, 0) == [Hit(0, 15, Groups('"', "a", Some(" x")))] + ScanFrom(Pattern(s), |s|, 15)
    ensures AtOffset(s, 15, (Opening('"', "b", "t") + " }}") + "")
  {
    assert QuotableKey('"', "a") && PlainArgs(" x");
    assert s + "" == s;
    ArgsLine(s, 0, '"', "a", "t", " x", " |", Opening('"', "b", "t") + " }}", 15);
  }

  /** From the bar on, the second reference is reported and nothing after it. */
  lemma PipeSecond(s: string)
    requires AtOffset(s, 15, (Opening('"', "b", "t") + " }}") + "")
    ensures ScanFrom(Pattern(s), |s|, 15) == [Hit(15, 25, Groups('"', "b", None))]
  {
    assert QuotableKey('"', "b") && BraceFree(" }}");
    NoArgsLine(s, 15, '"', "b", "t", " }}", "", 25, 28);
    ScanPastEnd(s, 28);
  }

  /** A reference written inside the arguments of another one. */
  const NestedTemplate: string := Opening('"', "a", "t") + (":" + " {{ \"b\"" + " |") + " t }}"

  /**
   The lazy argument group of the outer reference runs up to the inner
   reference's `|`, so only the outer key is reported.
   */
  lemma NestedIsSwallowed(s: string)
    requires s == NestedTemplate
    ensures Scan(s) == [Hit(0, 20, Groups('"', "a", Some(" {{ \"b\"")))]
  {
    assert QuotableKey('"', "a") && PlainArgs(" {{ \"b\"") && BraceFree(" t }}");
    assert s + "" == s;
    ArgsLine(s, 0, '"', "a", "t", " {{ \"b\"", " |", " t }}", 20);
    GapEnd(s, 20, " t }}");
  }

  /**
   The pattern does match where the inner reference starts, yet that
   position only lies inside the outer match: the inner key is swallowed,
   not reported.
   */
  lemma NestedInnerCovered(s: string)
    requires s == NestedTemplate
    ensures MatchAt(s, 12) == Some(Hit(12, 22, Groups('"', "b", None)))
    ensures Covers(Scan(s), 12) && forall k :: 0 <= k < |Scan(s)| ==> Scan(s)[k].index != 12
  {
    assert QuotableKey('"', "b");
    assert HasAt(s, 12, Opening('"', "b", "t")) by {
      assert s[12..22] == Opening('"', "b", "t");
    }
    OpeningNoArgs(s, 12, '"', "b", "t", 22);
    ScanCovers(s, 12);
    NestedIsSwallowed(s);
  }
}

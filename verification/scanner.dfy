/**
 The translation-filter pattern `PIPE_T_RXP` of linters/translation_filter_scanner.js
 (repeated in linters/i18n.js) as a hand-written, deterministic scanner over text:

   {{ \s* q key q \s* | \s* t(ranslate)? ( : args \s* ( | or }} ) )?

 where `q` is `'` or `"`, the key is a non-empty run of characters that are
 neither `q` nor a line terminator, and `args` is the SHORTEST run of
 non-line-terminators after which, once whitespace is skipped, `|` or `}}`
 follows. Every `\s*` in the pattern is followed by a non-whitespace literal,
 so backtracking can never make it consume less than all the whitespace; the
 key run is followed by `q` and so must be maximal; and because the argument
 group is optional, the greedy `(ranslate)?` is never revisited. The scanner
 therefore takes no choices, and a global `exec` loop becomes "match at the
 first position from here, resume after the match".
 */
module Scanner {
  import opened Optional
  import opened Text
  import opened GlobalExec

  predicate IsQuote(c: char) {
    c == '\'' || c == '"'
  }

  /** The captures of one match: the opening quote (group 1), the key (group 2) and the arguments (group 3). */
  datatype Groups = Groups(quote: char, key: string, args: Option<string>)

  type RawMatch = Hit<Groups>

  /** Where the greedy key run `(?:(?!q).)+` starting at `i` stops. */
  function KeyEnd(s: string, i: nat, q: char): (j: nat)
    requires i <= |s|
    ensures i <= j <= |s|
    ensures forall k :: i <= k < j ==> s[k] != q && !IsLineTerminator(s[k])
    ensures j < |s| ==> s[j] == q || IsLineTerminator(s[j])
    decreases |s| - i
  {
    if i < |s| && s[i] != q && !IsLineTerminator(s[i]) then KeyEnd(s, i + 1, q) else i
  }

  /** How far `.` (any character but a line terminator) can reach from `i`. */
  function LineEnd(s: string, i: nat): (j: nat)
    requires i <= |s|
    ensures i <= j <= |s|
    ensures forall k :: i <= k < j ==> !IsLineTerminator(s[k])
    ensures j < |s| ==> IsLineTerminator(s[j])
    decreases |s| - i
  {
    if i < |s| && !IsLineTerminator(s[i]) then LineEnd(s, i + 1) else i
  }

  /** The tail `\s*(?:\||\}\})` tried at `j`: the position after `|` or `}}`, if it matches. */
  function CloseAt(s: string, j: nat): (r: Option<nat>)
    requires j <= |s|
    ensures r.Some? ==> j < r.value <= |s|
    ensures r.Some? <==> var k := SkipWhitespace(s, j);
      (k < |s| && s[k] == '|') || (k + 1 < |s| && s[k] == '}' && s[k + 1] == '}')
    ensures var k := SkipWhitespace(s, j); k < |s| && s[k] == '|' ==> r == Some(k + 1)
    ensures var k := SkipWhitespace(s, j); k + 1 < |s| && s[k] == '}' && s[k + 1] == '}' ==> r == Some(k + 2)
  {
    var k := SkipWhitespace(s, j);
    if k < |s| && s[k] == '|' then Some(k + 1)
    else if k + 1 < |s| && s[k] == '}' && s[k + 1] == '}' then Some(k + 2)
    else None
  }

  /** The lazy `(.*?)`: the least `j` in `[from, limit]` at which the closing tail matches. */
  function LazyArgsEnd(s: string, from: nat, limit: nat): (r: Option<nat>)
    requires from <= limit <= |s|
    ensures r.Some? ==> from <= r.value <= limit && CloseAt(s, r.value).Some?
    ensures r.Some? ==> forall k :: from <= k < r.value ==> CloseAt(s, k).None?
    ensures r.None? ==> forall k :: from <= k <= limit ==> CloseAt(s, k).None?
    decreases limit - from
  {
    if CloseAt(s, from).Some? then Some(from)
    else if from < limit then LazyArgsEnd(s, from + 1, limit)
    else None
  }

  /** The least closing position is unique: a `j` where the tail matches with none before it is the lazy group's end. */
  lemma LazyArgsEndIs(s: string, from: nat, limit: nat, j: nat)
    requires from <= j <= limit <= |s|
    requires CloseAt(s, j).Some?
    requires forall k :: from <= k < j ==> CloseAt(s, k).None?
    ensures LazyArgsEnd(s, from, limit) == Some(j)
  {
  }

  /**
   Where the filter name starting with `t` at `d` ends: the optional
   `(?:ranslate)?` is greedy, so the name ends after `translate` whenever that
   word is spelt out there, and after `t` otherwise.
   */
  function FilterNameEnd(s: string, d: nat): (t: nat)
    requires d < |s| && s[d] == 't'
    ensures t == d + 1 || t == d + 9
    ensures t == d + 9 <==> HasAt(s, d, "translate")
    ensures t <= |s|
  {
    TranslateSpelt(s, d);
    if HasAt(s, d + 1, "ranslate") then d + 9 else d + 1
  }

  /** After a `t`, the rest of `translate` is there exactly when the whole word is. */
  lemma TranslateSpelt(s: string, d: nat)
    requires d < |s| && s[d] == 't'
    ensures HasAt(s, d + 1, "ranslate") <==> HasAt(s, d, "translate")
  {
    if d + 9 <= |s| {
      assert s[d..d + 9] == [s[d]] + s[d + 1..d + 9];
    }
  }

  /**
   The optional group `(?::(.*?)\s*(?:\||\}\}))?` tried right after the filter
   name: capture group 3 and the end of the whole match.
   */
  function ArgsGroup(s: string, t: nat): (r: (Option<string>, nat))
    requires t <= |s|
    ensures r.0.Some? ==> t < |s| && s[t] == ':'
    ensures r.0.Some? ==> var j := t + 1 + |r.0.value|;
      && j <= LineEnd(s, t + 1)
      && s[t + 1..j] == r.0.value
      && CloseAt(s, j) == Some(r.1)
      && (forall k :: t + 1 <= k < j ==> CloseAt(s, k).None?)
    ensures r.0.Some? ==> var k := SkipWhitespace(s, t + 1 + |r.0.value|);
      || (k < |s| && s[k] == '|' && r.1 == k + 1)
      || (k + 1 < |s| && s[k] == '}' && s[k + 1] == '}' && r.1 == k + 2)
    ensures r.0.None? ==> r.1 == t
    ensures r.0.None? && t < |s| && s[t] == ':' ==>
      forall k :: t + 1 <= k <= LineEnd(s, t + 1) ==> CloseAt(s, k).None?
  {
    if t < |s| && s[t] == ':' then
      match LazyArgsEnd(s, t + 1, LineEnd(s, t + 1))
      case Some(j) =>
        assert t + 1 + |s[t + 1..j]| == j;
        (Some(s[t + 1..j]), CloseAt(s, j).value)
      case None => (None, t)
    else (None, t)
  }

  /** The pattern tried at exactly position `i`. */
  function MatchAt(s: string, i: nat): (r: Option<RawMatch>)
    ensures r.Some? ==> r.value.index == i && i + 2 <= r.value.end <= |s|
    ensures r.Some? ==> s[i] == '{' && s[i + 1] == '{'
  {
    if i + 2 <= |s| && s[i] == '{' && s[i + 1] == '{' then MatchQuoted(s, i, SkipWhitespace(s, i + 2))
    else None
  }

  /** The rest of the pattern once `{{` and whitespace have been read up to `a`: the quoted key. */
  function MatchQuoted(s: string, i: nat, a: nat): (r: Option<RawMatch>)
    requires i + 2 <= a <= |s|
    ensures r.Some? ==> r.value.index == i && a < r.value.end <= |s|
  {
    if a < |s| && IsQuote(s[a]) then MatchClosed(s, i, a, KeyEnd(s, a + 1, s[a]))
    else None
  }

  /** The rest of the pattern once the key run from the quote at `a` has stopped at `b`: the closing quote. */
  function MatchClosed(s: string, i: nat, a: nat, b: nat): (r: Option<RawMatch>)
    requires i + 2 <= a < b <= |s|
    ensures r.Some? ==> r.value.index == i && b < r.value.end <= |s|
  {
    if a + 1 < b < |s| && s[b] == s[a] then MatchFilter(s, i, a, b, SkipWhitespace(s, b + 1))
    else None
  }

  /** The rest of the pattern once the key has closed at `b` and whitespace has been read up to `c`: `|`, the filter and its arguments. */
  function MatchFilter(s: string, i: nat, a: nat, b: nat, c: nat): (r: Option<RawMatch>)
    requires a + 1 < b < c <= |s|
    ensures r.Some? ==> r.value.index == i && c < r.value.end <= |s|
  {
    if c < |s| && s[c] == '|' then
      var d := SkipWhitespace(s, c + 1);
      if d < |s| && s[d] == 't' then
        var g := ArgsGroup(s, FilterNameEnd(s, d));
        Some(Hit(i, g.1, Groups(s[a], s[a + 1..b], g.0)))
      else None
    else None
  }

  /**
   The mandatory part of the pattern, stated with positions instead of
   computation: `{{` at `i`, whitespace, the opening quote at `a`, a non-empty
   key of neither quote nor line terminator, the same quote at `b`, whitespace,
   `|` at `c`, whitespace and `t` at `d`.
   */
  ghost predicate PrefixShape(s: string, i: nat, a: nat, b: nat, c: nat, d: nat) {
    && i + 2 <= a && a + 1 < b && b < c && c < d && d < |s|
    && s[i] == '{' && s[i + 1] == '{'
    && (forall k :: i + 2 <= k < a ==> IsWhitespace(s[k]))
    && IsQuote(s[a])
    && (forall k :: a < k < b ==> s[k] != s[a] && !IsLineTerminator(s[k]))
    && s[b] == s[a]
    && (forall k :: b < k < c ==> IsWhitespace(s[k]))
    && s[c] == '|'
    && (forall k :: c < k < d ==> IsWhitespace(s[k]))
    && s[d] == 't'
  }

  ghost predicate HasPrefixShape(s: string, i: nat) {
    exists a: nat, b: nat, c: nat, d: nat :: PrefixShape(s, i, a, b, c, d)
  }

  /** Each `\s*` and the key run of a decomposition stop exactly where the decomposition says. */
  lemma ShapePositions(s: string, i: nat, a: nat, b: nat, c: nat, d: nat)
    requires PrefixShape(s, i, a, b, c, d)
    ensures SkipWhitespace(s, i + 2) == a && KeyEnd(s, a + 1, s[a]) == b
    ensures SkipWhitespace(s, b + 1) == c && SkipWhitespace(s, c + 1) == d
  {
    SkipWhitespaceUnique(s, i + 2, a);
    SkipWhitespaceUnique(s, b + 1, c);
    SkipWhitespaceUnique(s, c + 1, d);
  }

  /** With every position the scanner computes known, its result is known. */
  lemma MatchAtPositions(s: string, i: nat, a: nat, b: nat, c: nat, d: nat)
    requires i + 2 <= |s| && s[i] == '{' && s[i + 1] == '{'
    requires SkipWhitespace(s, i + 2) == a && a < |s| && IsQuote(s[a])
    requires KeyEnd(s, a + 1, s[a]) == b && a + 1 < b < |s| && s[b] == s[a]
    requires SkipWhitespace(s, b + 1) == c && c < |s| && s[c] == '|'
    requires SkipWhitespace(s, c + 1) == d && d < |s| && s[d] == 't'
    ensures MatchAt(s, i) == Some(Hit(i, ArgsGroup(s, FilterNameEnd(s, d)).1, Groups(s[a], s[a + 1..b], ArgsGroup(s, FilterNameEnd(s, d)).0)))
  {
    assert MatchAt(s, i) == MatchQuoted(s, i, a);
    QuotedThenFilter(s, i, a, b, c);
  }

  /** Past a closed quoted key, the pattern goes on with the filter. */
  lemma QuotedThenFilter(s: string, i: nat, a: nat, b: nat, c: nat)
    requires i + 2 <= a < |s| && IsQuote(s[a])
    requires KeyEnd(s, a + 1, s[a]) == b && a + 1 < b < |s| && s[b] == s[a]
    requires SkipWhitespace(s, b + 1) == c
    ensures MatchQuoted(s, i, a) == MatchFilter(s, i, a, b, c)
  {
    assert MatchQuoted(s, i, a) == MatchClosed(s, i, a, b);
  }

  /** The positions the scanner computes decompose the mandatory part. */
  lemma PositionsShape(s: string, i: nat, a: nat, b: nat, c: nat, d: nat)
    requires i + 2 <= |s| && s[i] == '{' && s[i + 1] == '{'
    requires SkipWhitespace(s, i + 2) == a && a < |s| && IsQuote(s[a])
    requires KeyEnd(s, a + 1, s[a]) == b && a + 1 < b < |s| && s[b] == s[a]
    requires SkipWhitespace(s, b + 1) == c && c < |s| && s[c] == '|'
    requires SkipWhitespace(s, c + 1) == d && d < |s| && s[d] == 't'
    ensures PrefixShape(s, i, a, b, c, d)
  {
  }

  /** Any decomposition of the mandatory part is the one the scanner finds: it matches, with that quote and key. */
  lemma ShapeGivesMatch(s: string, i: nat, a: nat, b: nat, c: nat, d: nat)
    requires PrefixShape(s, i, a, b, c, d)
    ensures MatchAt(s, i).Some?
    ensures MatchAt(s, i) == Some(Hit(i, ArgsGroup(s, FilterNameEnd(s, d)).1, Groups(s[a], s[a + 1..b], ArgsGroup(s, FilterNameEnd(s, d)).0)))
  {
    ShapePositions(s, i, a, b, c, d);
    MatchAtPositions(s, i, a, b, c, d);
  }

  /** A match at `i` has the mandatory shape, with the quote and key it reports. */
  lemma MatchGivesShape(s: string, i: nat)
    requires MatchAt(s, i).Some?
    ensures exists a: nat, b: nat, c: nat, d: nat ::
      && PrefixShape(s, i, a, b, c, d)
      && MatchAt(s, i).value.groups.quote == s[a]
      && MatchAt(s, i).value.groups.key == s[a + 1..b]
  {
    var a, b, c, d := MatchedPositions(s, i);
  }

  /** The positions a match passes through, returned so that they witness its shape. */
  lemma MatchedPositions(s: string, i: nat) returns (a: nat, b: nat, c: nat, d: nat)
    requires MatchAt(s, i).Some?
    ensures PrefixShape(s, i, a, b, c, d)
    ensures MatchAt(s, i).value.groups.quote == s[a]
    ensures MatchAt(s, i).value.groups.key == s[a + 1..b]
  {
    a := SkipWhitespace(s, i + 2);
    b := QuotedSome(s, i, a);
    c := ClosedSome(s, i, a, b);
    d := FilterSome(s, i, a, b, c);
    MatchAtPositions(s, i, a, b, c, d);
    PositionsShape(s, i, a, b, c, d);
  }

  /** A quoted-key match starts with a quote, and its key run stops where the rest of the match goes on. */
  lemma QuotedSome(s: string, i: nat, a: nat) returns (b: nat)
    requires i + 2 <= a <= |s| && MatchQuoted(s, i, a).Some?
    ensures a < |s| && IsQuote(s[a]) && b == KeyEnd(s, a + 1, s[a])
    ensures a < b <= |s| && MatchClosed(s, i, a, b).Some?
  {
    b := KeyEnd(s, a + 1, s[a]);
  }

  /** A match past the key run has the closing quote at `b`, and goes on after the whitespace that follows. */
  lemma ClosedSome(s: string, i: nat, a: nat, b: nat) returns (c: nat)
    requires i + 2 <= a < b <= |s| && MatchClosed(s, i, a, b).Some?
    ensures a + 1 < b < |s| && s[b] == s[a] && c == SkipWhitespace(s, b + 1)
    ensures b < c <= |s| && MatchFilter(s, i, a, b, c).Some?
  {
    c := SkipWhitespace(s, b + 1);
  }

  /** A match past the key has `|` at `c` and `t` after the whitespace that follows. */
  lemma FilterSome(s: string, i: nat, a: nat, b: nat, c: nat) returns (d: nat)
    requires a + 1 < b < c <= |s| && MatchFilter(s, i, a, b, c).Some?
    ensures c < |s| && s[c] == '|' && d == SkipWhitespace(s, c + 1) && d < |s| && s[d] == 't'
  {
    d := SkipWhitespace(s, c + 1);
  }

  /** The pattern matches at `i` exactly when its mandatory part does: nothing after the `t` is required. */
  lemma MatchAtIffShape(s: string, i: nat)
    ensures MatchAt(s, i).Some? <==> HasPrefixShape(s, i)
  {
    if MatchAt(s, i).Some? {
      MatchGivesShape(s, i);
    }
    if HasPrefixShape(s, i) {
      var a: nat, b: nat, c: nat, d: nat :| PrefixShape(s, i, a, b, c, d);
      ShapeGivesMatch(s, i, a, b, c, d);
    }
  }

  /**
   The key of a match is non-empty, holds no line terminator, and ends at the
   first recurrence of its opening quote (it never holds that quote).
   */
  lemma KeyShape(s: string, i: nat)
    requires MatchAt(s, i).Some?
    ensures var m := MatchAt(s, i).value;
      && IsQuote(m.groups.quote)
      && |m.groups.key| >= 1
      && (forall k :: 0 <= k < |m.groups.key| ==> m.groups.key[k] != m.groups.quote && !IsLineTerminator(m.groups.key[k]))
  {
    MatchGivesShape(s, i);
    var m := MatchAt(s, i).value;
    var a: nat, b: nat, c: nat, d: nat :| PrefixShape(s, i, a, b, c, d) && m.groups.quote == s[a] && m.groups.key == s[a + 1..b];
    forall k | 0 <= k < |m.groups.key|
      ensures m.groups.key[k] != m.groups.quote && !IsLineTerminator(m.groups.key[k])
    {
      assert m.groups.key[k] == s[a + 1 + k];
    }
  }

  /** Skipping one trailing whitespace character does not change where `\s*` stops. */
  lemma SkipWhitespaceStep(s: string, j: nat)
    requires 0 < j <= |s|
    ensures IsWhitespace(s[j - 1]) ==> SkipWhitespace(s, j - 1) == SkipWhitespace(s, j)
  {
  }

  /**
   Captured arguments never contain `|`, `}}` or a line terminator, and never
   end in whitespace: the lazy capture stops at the first place the closing
   tail could match.
   */
  lemma ArgsShape(s: string, t: nat)
    requires t <= |s|
    requires ArgsGroup(s, t).0.Some?
    ensures var args := ArgsGroup(s, t).0.value;
      && (forall k :: 0 <= k < |args| ==> args[k] != '|' && !IsLineTerminator(args[k]))
      && (forall k :: 0 <= k < |args| - 1 ==> !(args[k] == '}' && args[k + 1] == '}'))
      && (|args| > 0 ==> !IsWhitespace(args[|args| - 1]))
  {
    var args := ArgsGroup(s, t).0.value;
    var j := t + 1 + |args|;
    forall k | 0 <= k < |args|
      ensures args[k] != '|' && !IsLineTerminator(args[k])
    {
      assert args[k] == s[t + 1 + k];
      assert CloseAt(s, t + 1 + k).None?;
    }
    forall k | 0 <= k < |args| - 1
      ensures !(args[k] == '}' && args[k + 1] == '}')
    {
      assert args[k] == s[t + 1 + k] && args[k + 1] == s[t + 2 + k];
      assert CloseAt(s, t + 1 + k).None?;
    }
    if |args| > 0 {
      assert s[j - 1] == args[|args| - 1];
      assert CloseAt(s, j - 1).None?;
      SkipWhitespaceStep(s, j);
    }
  }

  /**
   Arguments are captured only when `:` directly follows the filter name `t`
   or `translate`; without it the match ends right after the filter name.
   */
  lemma ArgsNeedColon(s: string, i: nat, a: nat, b: nat, c: nat, d: nat)
    requires PrefixShape(s, i, a, b, c, d)
    ensures var t := FilterNameEnd(s, d);
      && (MatchAt(s, i).value.groups.args.Some? ==> t < |s| && s[t] == ':')
      && (!(t < |s| && s[t] == ':') ==> MatchAt(s, i).value.groups.args.None? && MatchAt(s, i).value.end == t)
  {
    ShapeGivesMatch(s, i, a, b, c, d);
  }

  /** The pattern as the global `exec` loop sees it: what it matches when tried at each position of `s`. */
  function Pattern(s: string): nat -> Option<RawMatch> {
    (p: nat) => MatchAt(s, p)
  }

  lemma PatternAnchored(s: string)
    ensures Anchored(Pattern(s), |s|)
  {
  }

  /** Every match of the pattern in `s`, in the order a fresh global matcher finds them. */
  function Scan(s: string): seq<RawMatch> {
    PatternAnchored(s);
    ScanFrom(Pattern(s), |s|, 0)
  }

  /** Every reported index is the offset of a `{{`. */
  lemma ScanBraces(s: string, k: nat)
    requires k < |Scan(s)|
    ensures Scan(s)[k].index + 1 < |s| && s[Scan(s)[k].index] == '{' && s[Scan(s)[k].index + 1] == '{'
  {
    PatternAnchored(s);
    assert MatchAt(s, Scan(s)[k].index) == Some(Scan(s)[k]);
  }

  /** The matches come in strictly increasing, non-overlapping order. */
  lemma ScanIncreasing(s: string, k: nat, l: nat)
    requires k < l < |Scan(s)|
    ensures Scan(s)[k].end <= Scan(s)[l].index && Scan(s)[k].index < Scan(s)[l].index
  {
    PatternAnchored(s);
    ScanOrdered(Pattern(s), |s|, 0, k, l);
  }

  /**
   Every position where the pattern matches lies inside a reported match.
   That match need not start there: a reference written inside another
   match's arguments is swallowed by that match and not reported itself.
   */
  lemma ScanCovers(s: string, p: nat)
    requires MatchAt(s, p).Some?
    ensures Covers(Scan(s), p)
  {
    PatternAnchored(s);
    assert Pattern(s)(p) == MatchAt(s, p);
    ScanComplete(Pattern(s), |s|, 0, p);
  }

  /** A stretch without `{{` holds no match, so scanning passes over it. */
  lemma ScanSkipText(s: string, i: nat, j: nat)
    requires i <= j
    requires forall p :: i <= p < j && p + 1 < |s| ==> !(s[p] == '{' && s[p + 1] == '{')
    ensures ScanFrom(Pattern(s), |s|, i) == ScanFrom(Pattern(s), |s|, j)
  {
    PatternAnchored(s);
    forall p: nat | i <= p < j
      ensures Pattern(s)(p).None?
    {
      assert Pattern(s)(p) == MatchAt(s, p);
    }
    ScanSkip(Pattern(s), |s|, i, j);
  }

  /** Where the pattern matches, scanning reports that match and resumes at its end. */
  lemma ScanMatchHere(s: string, i: nat)
    requires MatchAt(s, i).Some?
    ensures ScanFrom(Pattern(s), |s|, i) == [MatchAt(s, i).value] + ScanFrom(Pattern(s), |s|, MatchAt(s, i).value.end)
  {
    PatternAnchored(s);
    assert Pattern(s)(i) == MatchAt(s, i);
  }

  /** Scanning from the start of any decomposition of the mandatory part reports that match first and resumes after it. */
  lemma ShapeScans(s: string, i: nat, a: nat, b: nat, c: nat, d: nat)
    requires PrefixShape(s, i, a, b, c, d)
    ensures var g := ArgsGroup(s, FilterNameEnd(s, d));
      ScanFrom(Pattern(s), |s|, i) == [Hit(i, g.1, Groups(s[a], s[a + 1..b], g.0))] + ScanFrom(Pattern(s), |s|, g.1)
  {
    ShapeGivesMatch(s, i, a, b, c, d);
    var g := ArgsGroup(s, FilterNameEnd(s, d));
    var m := MatchAt(s, i).value;
    assert m.groups == Groups(s[a], s[a + 1..b], g.0);
    assert m == Hit(i, g.1, m.groups);
    ScanMatchHere(s, i);
  }

  /** Nothing is found once the whole text has been passed. */
  lemma ScanPastEnd(s: string, i: nat)
    requires |s| <= i
    ensures ScanFrom(Pattern(s), |s|, i) == []
  {
    PatternAnchored(s);
  }

  /** A match as `forEach` hands it to its callback: `args` is `match[3] || null`, so an empty capture reads as absent. */
  datatype FilterMatch = FilterMatch(key: string, args: Option<string>, index: nat)

  function Published(m: RawMatch): FilterMatch {
    FilterMatch(m.groups.key, if m.groups.args == Some("") then None else m.groups.args, m.index)
  }

  /**
   `TranslationFilterScanner.forEach`: a fresh matcher runs `exec` until it
   fails, handing each match to the callback; the callback calls are returned
   in order.
   */
  method ForEach(content: string) returns (matches: seq<FilterMatch>)
    ensures matches == MapHits(Published, Scan(content))
    ensures forall k :: 0 <= k < |matches| ==> matches[k].args != Some("")
  {
    PatternAnchored(content);
    matches := ExecEach(Pattern(content), |content|, Published);
  }

  /**
   `forEach` builds a new matcher on every call, so each call's `exec` loop
   starts again from `lastIndex` 0 (as `ExecEach` does): a second call reports
   every match again, not the ones left after the first.
   */
  method ForEachTwice(content: string) returns (first: seq<FilterMatch>, second: seq<FilterMatch>)
    ensures first == MapHits(Published, Scan(content))
    ensures second == MapHits(Published, Scan(content))
  {
    first := ForEach(content);
    second := ForEach(content);
  }
}

/**
 String helpers with JavaScript semantics: the `\s` character class, line
 terminators, prefix/suffix tests, `String.prototype.split` on one separator
 character and on `/\s+/`, and `Array.prototype.join`.
 */
module Text {

  /** ECMAScript LineTerminator: LF, CR, LINE SEPARATOR and PARAGRAPH SEPARATOR. */
  predicate IsLineTerminator(c: char) {
    c == '\n' || c == '\r' || c as int == 0x2028 || c as int == 0x2029
  }

  /** The regular-expression class `\s`: ECMAScript WhiteSpace plus LineTerminator. */
  predicate IsWhitespace(c: char) {
    || IsLineTerminator(c)
    || c == '\t' || c as int == 0x0B || c as int == 0x0C || c == ' '
    || c as int == 0xA0 || c as int == 0x1680
    || 0x2000 <= c as int <= 0x200A
    || c as int == 0x202F || c as int == 0x205F || c as int == 0x3000 || c as int == 0xFEFF
  }

  /** The position where a greedy `\s*` started at `i` stops. */
  function SkipWhitespace(s: string, i: nat): (j: nat)
    requires i <= |s|
    ensures i <= j <= |s|
    ensures forall k :: i <= k < j ==> IsWhitespace(s[k])
    ensures j < |s| ==> !IsWhitespace(s[j])
    decreases |s| - i
  {
    if i < |s| && IsWhitespace(s[i]) then SkipWhitespace(s, i + 1) else i
  }

  /** A whitespace run followed by a non-whitespace character (or the end) is exactly what `\s*` consumes. */
  lemma SkipWhitespaceUnique(s: string, i: nat, j: nat)
    requires i <= j <= |s|
    requires forall k :: i <= k < j ==> IsWhitespace(s[k])
    requires j < |s| ==> !IsWhitespace(s[j])
    ensures SkipWhitespace(s, i) == j
  {
  }

  /** `t` occurs in `s` at position `i`. */
  predicate HasAt(s: string, i: nat, t: string) {
    i + |t| <= |s| && s[i..i + |t|] == t
  }

  /** `String.prototype.endsWith`. */
  predicate EndsWith(s: string, t: string) {
    |t| <= |s| && s[|s| - |t|..] == t
  }

  /** `String.prototype.includes`: `t` occurs somewhere in `s`. */
  predicate Contains(s: string, t: string) {
    exists i: nat :: i <= |s| && HasAt(s, i, t)
  }

  /** `Array.prototype.join(sep)`: the parts with `sep` between neighbours. */
  function Join(parts: seq<string>, sep: string): string {
    if |parts| == 0 then ""
    else if |parts| == 1 then parts[0]
    else parts[0] + sep + Join(parts[1..], sep)
  }

  /** `s.split(c)` for a one-character separator `c`: the maximal `c`-free pieces, empty pieces included. */
  function Split(s: string, c: char): (parts: seq<string>)
    ensures |parts| >= 1
    ensures forall k :: 0 <= k < |parts| ==> c !in parts[k]
    decreases |s|
  {
    if |s| == 0 then [""]
    else
      var rest := Split(s[1..], c);
      if s[0] == c then [""] + rest
      else [[s[0]] + rest[0]] + rest[1..]
  }

  /** Joining the pieces of a split with the separator gives back the original string. */
  lemma {:induction false} JoinSplit(s: string, c: char)
    ensures Join(Split(s, c), [c]) == s
    decreases |s|
  {
    if |s| > 0 {
      var rest := Split(s[1..], c);
      JoinSplit(s[1..], c);
      if s[0] == c {
        assert Split(s, c) == [""] + rest;
        assert Join(Split(s, c), [c]) == [c] + Join(rest, [c]);
        assert s == [s[0]] + s[1..];
      } else {
        JoinHead(s[0], rest, [c]);
        assert s == [s[0]] + s[1..];
      }
    }
  }

  /** Prepending a character to the first part prepends it to the joined string. */
  lemma JoinHead(x: char, parts: seq<string>, sep: string)
    requires |parts| >= 1
    ensures Join([[x] + parts[0]] + parts[1..], sep) == [x] + Join(parts, sep)
  {
    var ps := [[x] + parts[0]] + parts[1..];
    if |parts| > 1 {
      assert ps[1..] == parts[1..];
    }
  }

  /** A string without the separator splits into itself. */
  lemma {:induction false} SplitFree(s: string, c: char)
    requires c !in s
    ensures Split(s, c) == [s]
    decreases |s|
  {
    if |s| > 0 {
      assert c !in s[1..] by {
        forall k | 0 <= k < |s[1..]| ensures s[1..][k] != c {
          assert s[1..][k] == s[k + 1];
        }
      }
      SplitFree(s[1..], c);
      assert s == [s[0]] + s[1..];
    }
  }

  /** One step of the split: a leading separator starts a new piece, any other character joins the first. */
  lemma SplitCons(x: char, t: string, c: char)
    ensures var rest := Split(t, c);
      Split([x] + t, c) == if x == c then [""] + rest else [[x] + rest[0]] + rest[1..]
  {
    assert ([x] + t)[0] == x && ([x] + t)[1..] == t;
  }

  /** Splitting around one occurrence of the separator splits both sides independently. */
  lemma {:induction false} SplitAround(a: string, c: char, b: string)
    ensures Split(a + [c] + b, c) == Split(a, c) + Split(b, c)
    decreases |a|
  {
    if |a| == 0 {
      assert a + [c] + b == [c] + b;
      SplitCons(c, b, c);
    } else {
      assert a == [a[0]] + a[1..];
      assert a + [c] + b == [a[0]] + (a[1..] + [c] + b);
      SplitAround(a[1..], c, b);
      SplitAroundStep(a[0], a[1..], c, b);
    }
  }

  /** The inductive step of `SplitAround`: one more character in front of the left side. */
  lemma SplitAroundStep(x: char, a: string, c: char, b: string)
    requires Split(a + [c] + b, c) == Split(a, c) + Split(b, c)
    ensures Split([x] + (a + [c] + b), c) == Split([x] + a, c) + Split(b, c)
  {
    SplitCons(x, a + [c] + b, c);
    SplitCons(x, a, c);
    if x != c {
      FirstPieceAppend(x, Split(a, c), Split(b, c));
    }
  }

  /** Putting a character in front of the first piece commutes with appending more pieces. */
  lemma FirstPieceAppend(x: char, ra: seq<string>, rb: seq<string>)
    requires |ra| >= 1
    ensures [[x] + (ra + rb)[0]] + (ra + rb)[1..] == ([[x] + ra[0]] + ra[1..]) + rb
  {
    assert (ra + rb)[0] == ra[0];
    assert (ra + rb)[1..] == ra[1..] + rb;
  }

  /** The string's last piece is what follows its last separator, and the rest is the join of the other pieces. */
  lemma {:induction false} SplitLast(s: string, c: char)
    ensures var parts := Split(s, c);
      var n := |parts|;
      n == 1 ==> s == parts[0]
    ensures var parts := Split(s, c);
      var n := |parts|;
      n > 1 ==> s == Join(parts[..n - 1], [c]) + [c] + parts[n - 1]
  {
    var parts := Split(s, c);
    var n := |parts|;
    JoinSplit(s, c);
    if n > 1 {
      JoinSnoc(parts, [c]);
    }
  }

  /** Joining is associative at the last part. */
  lemma {:induction false} JoinSnoc(parts: seq<string>, sep: string)
    requires |parts| > 1
    ensures Join(parts, sep) == Join(parts[..|parts| - 1], sep) + sep + parts[|parts| - 1]
    decreases |parts|
  {
    if |parts| > 2 {
      JoinSnoc(parts[1..], sep);
      assert parts[1..][..|parts[1..]| - 1] == parts[..|parts| - 1][1..];
    }
  }

  /** The last piece of a split. */
  function LastPiece(s: string, c: char): string {
    var parts := Split(s, c);
    parts[|parts| - 1]
  }

  /** Splitting at a separator whose right-hand side holds no separator makes that side the last piece. */
  lemma SplitAfterLast(a: string, c: char, b: string)
    requires c !in b
    ensures Split(a + [c] + b, c) == Split(a, c) + [b]
  {
    SplitAround(a, c, b);
    SplitFree(b, c);
  }

  /**
   The last piece ends with `t` only if the whole string does, and, when `t`
   holds no separator, also if the whole string does.
   */
  lemma LastPieceSuffix(s: string, c: char, t: string)
    ensures EndsWith(LastPiece(s, c), t) ==> EndsWith(s, t)
    ensures c !in t && EndsWith(s, t) ==> EndsWith(LastPiece(s, c), t)
  {
    var parts := Split(s, c);
    var n := |parts|;
    var last := parts[n - 1];
    SplitLast(s, c);
    if n > 1 {
      var p := Join(parts[..n - 1], [c]) + [c];
      assert s == p + last;
      assert s[|s| - |last| - 1] == c;
      if EndsWith(last, t) {
        assert s[|s| - |t|..] == last[|last| - |t|..];
      }
      if EndsWith(s, t) && |t| > |last| {
        assert t[|t| - |last| - 1] == c;
      }
      if c !in t && EndsWith(s, t) {
        assert s[|s| - |t|..] == last[|last| - |t|..];
      }
    }
  }

  /** Everything before the last separator splits into all pieces but the last. */
  lemma SplitInit(s: string, c: char)
    requires |Split(s, c)| > 1
    ensures var parts := Split(s, c);
      var init := Join(parts[..|parts| - 1], [c]);
      s == init + [c] + parts[|parts| - 1] && Split(init, c) == parts[..|parts| - 1]
  {
    var parts := Split(s, c);
    var n := |parts|;
    SplitLast(s, c);
    SplitAfterLast(Join(parts[..n - 1], [c]), c, parts[n - 1]);
  }

  /** The end of the maximal run of non-whitespace characters starting at `i`. */
  function TokenEnd(s: string, i: nat): (j: nat)
    requires i <= |s|
    ensures i <= j <= |s|
    ensures forall k :: i <= k < j ==> !IsWhitespace(s[k])
    ensures j < |s| ==> IsWhitespace(s[j])
    decreases |s| - i
  {
    if i < |s| && !IsWhitespace(s[i]) then TokenEnd(s, i + 1) else i
  }

  /**
   `s.split(/\s+/)`: the pieces between whitespace runs. A leading run yields
   an empty first piece and a trailing run an empty last piece.
   */
  function SplitWhitespace(s: string): (parts: seq<string>)
    ensures |parts| >= 1
    decreases |s|
  {
    var k := TokenEnd(s, 0);
    if k == |s| then [s]
    else [s[..k]] + SplitWhitespace(s[SkipWhitespace(s, k)..])
  }

  /** `t` stands in `s` at `p` as a whole whitespace-delimited token. */
  predicate TokenAt(s: string, p: nat, t: string) {
    && HasAt(s, p, t)
    && (p == 0 || IsWhitespace(s[p - 1]))
    && (p + |t| == |s| || IsWhitespace(s[p + |t|]))
  }

  /** Some whitespace-delimited token of `s` is exactly `t`. */
  predicate HasToken(s: string, t: string) {
    exists p: nat :: p <= |s| && TokenAt(s, p, t)
  }

  /** A token of the text after a whitespace run is a token of the whole text, shifted by the run's end. */
  lemma TokenAtShift(s: string, j: nat, q: nat, t: string)
    requires 0 < j <= |s| && IsWhitespace(s[j - 1])
    requires q <= |s| - j
    ensures TokenAt(s[j..], q, t) <==> TokenAt(s, j + q, t)
  {
    var rest := s[j..];
    if HasAt(s, j + q, t) || HasAt(rest, q, t) {
      assert s[j + q..j + q + |t|] == rest[q..q + |t|];
    }
    if q > 0 {
      assert rest[q - 1] == s[j + q - 1];
    }
    if j + q + |t| < |s| {
      assert rest[q + |t|] == s[j + q + |t|];
    }
  }

  /** Before the first whitespace run ends, the only possible token position is the start, holding the first piece. */
  lemma TokenBeforeRun(s: string, t: string, p: nat)
    requires |t| > 0
    requires forall k :: 0 <= k < |t| ==> !IsWhitespace(t[k])
    requires TokenEnd(s, 0) < |s|
    requires p < SkipWhitespace(s, TokenEnd(s, 0)) && p <= |s| && TokenAt(s, p, t)
    ensures p == 0 && t == s[..TokenEnd(s, 0)]
  {
    var k := TokenEnd(s, 0);
    if p == 0 {
      assert s[..|t|] == t;
    }
  }

  /** A string without whitespace is its only piece, and its only token is itself. */
  lemma SingleToken(s: string, t: string)
    requires |t| > 0
    requires TokenEnd(s, 0) == |s|
    ensures t in SplitWhitespace(s) <==> HasToken(s, t)
  {
    assert SplitWhitespace(s) == [s];
    if t == s {
      assert TokenAt(s, 0, t);
    }
    if HasToken(s, t) {
      var p: nat :| p <= |s| && TokenAt(s, p, t);
      assert s == s[p..p + |t|];
    }
  }

  /** The first piece, and every token after the first whitespace run, is a token of the whole text. */
  lemma TokenAfterRunSound(s: string, t: string)
    requires |t| > 0
    requires TokenEnd(s, 0) < |s|
    requires t == s[..TokenEnd(s, 0)] || HasToken(s[SkipWhitespace(s, TokenEnd(s, 0))..], t)
    ensures HasToken(s, t)
  {
    var j := SkipWhitespace(s, TokenEnd(s, 0));
    if t == s[..TokenEnd(s, 0)] {
      assert TokenAt(s, 0, t);
    } else {
      var q: nat :| q <= |s[j..]| && TokenAt(s[j..], q, t);
      TokenAtShift(s, j, q, t);
    }
  }

  /** A token at or after the end of a whitespace run is a token of the text after the run. */
  lemma TokenAfterRunAt(s: string, j: nat, p: nat, t: string)
    requires 0 < j <= p <= |s| && IsWhitespace(s[j - 1])
    requires TokenAt(s, p, t)
    ensures HasToken(s[j..], t)
  {
    TokenAtShift(s, j, p - j, t);
    assert TokenAt(s[j..], p - j, t);
  }

  /** Every token of the whole text is the first piece or a token after the first whitespace run. */
  lemma TokenAfterRunComplete(s: string, t: string)
    requires |t| > 0
    requires forall k :: 0 <= k < |t| ==> !IsWhitespace(t[k])
    requires TokenEnd(s, 0) < |s|
    requires HasToken(s, t)
    ensures t == s[..TokenEnd(s, 0)] || HasToken(s[SkipWhitespace(s, TokenEnd(s, 0))..], t)
  {
    var k := TokenEnd(s, 0);
    var j := SkipWhitespace(s, k);
    assert IsWhitespace(s[k]);
    assert k < j && IsWhitespace(s[j - 1]);
    var p: nat :| p <= |s| && TokenAt(s, p, t);
    if p < j {
      TokenBeforeRun(s, t, p);
    } else {
      TokenAfterRunAt(s, j, p, t);
    }
  }

  /**
   For a non-empty word without whitespace, being one of the pieces of
   `s.split(/\s+/)` is the same as standing in `s` between whitespace (or the ends).
   */
  lemma {:induction false} SplitWhitespaceToken(s: string, t: string)
    requires |t| > 0
    requires forall k :: 0 <= k < |t| ==> !IsWhitespace(t[k])
    ensures t in SplitWhitespace(s) <==> HasToken(s, t)
    decreases |s|
  {
    var k := TokenEnd(s, 0);
    if k == |s| {
      SingleToken(s, t);
    } else {
      var j := SkipWhitespace(s, k);
      SplitWhitespaceToken(s[j..], t);
      assert SplitWhitespace(s) == [s[..k]] + SplitWhitespace(s[j..]);
      if t == s[..k] || HasToken(s[j..], t) {
        TokenAfterRunSound(s, t);
      }
      if HasToken(s, t) {
        TokenAfterRunComplete(s, t);
      }
    }
  }

  /** The decimal numeral of a natural number, as `String(n)` prints it. */
  function DecimalString(n: nat): (r: string)
    ensures |r| >= 1
    ensures forall k :: 0 <= k < |r| ==> '0' <= r[k] <= '9'
    decreases n
  {
    var digit := ['0' + (n % 10) as char];
    if n < 10 then digit else DecimalString(n / 10) + digit
  }

  predicate AllDigits(s: string) {
    forall k :: 0 <= k < |s| ==> '0' <= s[k] <= '9'
  }

  /** The number a string of decimal digits denotes, read left to right. */
  function DigitsValue(s: string): nat
    requires AllDigits(s)
  {
    if |s| == 0 then 0 else DigitsValue(s[..|s| - 1]) * 10 + (s[|s| - 1] as int - '0' as int)
  }

  /**
   The numeral reads back as the number it was made from, and it has no
   leading zero unless the number is zero.
   */
  lemma {:induction false} DecimalStringValue(n: nat)
    ensures AllDigits(DecimalString(n))
    ensures DigitsValue(DecimalString(n)) == n
    ensures DecimalString(n)[0] == '0' <==> n == 0
    decreases n
  {
    var r := DecimalString(n);
    if n >= 10 {
      var digit := ['0' + (n % 10) as char];
      DecimalStringValue(n / 10);
      assert r == DecimalString(n / 10) + digit;
      assert r[..|r| - 1] == DecimalString(n / 10);
      assert r[0] == DecimalString(n / 10)[0];
    }
  }
}

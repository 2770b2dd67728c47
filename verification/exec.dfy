/**
 The loop `while ((match = re.exec(text))) { ... }` over a regular expression
 with the global flag, for any pattern. `exec` searches from `lastIndex` for
 the first position where the pattern matches and moves `lastIndex` to the end
 of that match. The pattern is given as `at`: what it matches when tried at
 exactly position `p`, so this module knows nothing about any particular
 pattern.
 */
module GlobalExec {
  import opened Optional

  /** A match: the offset it starts at (`match.index`), where it ends, and its capture groups. */
  datatype Hit<+G> = Hit(index: nat, end: nat, groups: G)

  /** Every match of `at` starts where it was tried, is non-empty and stays inside a text of length `n`. */
  ghost predicate Anchored<G>(at: nat -> Option<Hit<G>>, n: nat) {
    forall p: nat :: at(p).Some? ==> at(p).value.index == p && p < at(p).value.end <= n
  }

  /** One `exec` with `lastIndex == i`: the match at the first position from `i` where the pattern matches. */
  function FindFrom<G>(at: nat -> Option<Hit<G>>, n: nat, i: nat): (r: Option<Hit<G>>)
    requires Anchored(at, n)
    ensures r.Some? ==> i <= r.value.index < n && at(r.value.index) == r
    ensures forall p: nat :: i <= p < n && (r.None? || p < r.value.index) ==> at(p).None?
    decreases n - i
  {
    if i >= n then None
    else if at(i).Some? then at(i)
    else FindFrom(at, n, i + 1)
  }

  /** The matches of successive `exec` calls starting from `lastIndex == i`, up to the first that fails. */
  function ScanFrom<G>(at: nat -> Option<Hit<G>>, n: nat, i: nat): (ms: seq<Hit<G>>)
    requires Anchored(at, n)
    ensures forall k :: 0 <= k < |ms| ==> i <= ms[k].index && at(ms[k].index) == Some(ms[k])
    decreases n - i
  {
    match FindFrom(at, n, i)
    case None => []
    case Some(m) => [m] + ScanFrom(at, n, m.end)
  }

  /** Consecutive matches do not overlap: each starts at or after the end of the one before. */
  lemma {:induction false} ScanDisjoint<G>(at: nat -> Option<Hit<G>>, n: nat, i: nat)
    requires Anchored(at, n)
    ensures forall k :: 0 <= k < |ScanFrom(at, n, i)| - 1 ==>
      ScanFrom(at, n, i)[k].end <= ScanFrom(at, n, i)[k + 1].index
    decreases n - i
  {
    match FindFrom(at, n, i)
    case None =>
    case Some(m) =>
      var rest := ScanFrom(at, n, m.end);
      ScanDisjoint(at, n, m.end);
      assert forall j :: 0 <= j < |rest| - 1 ==> rest[j].end <= rest[j + 1].index;
      var ms := ScanFrom(at, n, i);
      assert ms == [m] + rest;
      forall k | 0 <= k < |ms| - 1
        ensures ms[k].end <= ms[k + 1].index
      {
        if k > 0 {
          assert ms[k] == rest[k - 1] && ms[k + 1] == rest[k];
        } else {
          assert ms[1] == rest[0];
          assert m.end <= rest[0].index;
        }
      }
  }

  /** Match indices strictly increase, so matches come in document order. */
  lemma {:induction false} ScanOrdered<G>(at: nat -> Option<Hit<G>>, n: nat, i: nat, k: nat, l: nat)
    requires Anchored(at, n)
    requires k < l < |ScanFrom(at, n, i)|
    ensures ScanFrom(at, n, i)[k].end <= ScanFrom(at, n, i)[l].index
    ensures ScanFrom(at, n, i)[k].index < ScanFrom(at, n, i)[l].index
    decreases l - k
  {
    var ms := ScanFrom(at, n, i);
    ScanDisjoint(at, n, i);
    assert at(ms[k].index) == Some(ms[k]);
    if k + 1 < l {
      ScanOrdered(at, n, i, k + 1, l);
      assert at(ms[k + 1].index) == Some(ms[k + 1]);
    }
  }

  /** Position `p` lies inside one of the matches. */
  ghost predicate Covers<G>(ms: seq<Hit<G>>, p: nat) {
    exists k :: 0 <= k < |ms| && ms[k].index <= p < ms[k].end
  }

  /** No match is skipped: every position where the pattern matches lies inside a reported match. */
  lemma {:induction false} ScanComplete<G>(at: nat -> Option<Hit<G>>, n: nat, i: nat, p: nat)
    requires Anchored(at, n)
    requires i <= p && at(p).Some?
    ensures Covers(ScanFrom(at, n, i), p)
    decreases n - i
  {
    assert p < n;
    match FindFrom(at, n, i)
    case None =>
    case Some(m) =>
      var rest := ScanFrom(at, n, m.end);
      var ms := ScanFrom(at, n, i);
      assert ms == [m] + rest;
      if p < m.end {
        assert ms[0].index <= p < ms[0].end;
      } else {
        ScanComplete(at, n, m.end, p);
        var k :| 0 <= k < |rest| && rest[k].index <= p < rest[k].end;
        assert ms[k + 1] == rest[k];
      }
  }

  /** Positions where the pattern never matches can be skipped without changing the scan. */
  lemma {:induction false} ScanSkip<G>(at: nat -> Option<Hit<G>>, n: nat, i: nat, j: nat)
    requires Anchored(at, n)
    requires i <= j
    requires forall p: nat :: i <= p < j ==> at(p).None?
    ensures ScanFrom(at, n, i) == ScanFrom(at, n, j)
    decreases j - i
  {
    if i < j {
      if i < n {
        assert at(i).None?;
        assert FindFrom(at, n, i) == FindFrom(at, n, i + 1);
      }
      ScanSkip(at, n, i + 1, j);
    }
  }

  /** What a callback receives for each match, in order. */
  function MapHits<G, R>(f: Hit<G> -> R, ms: seq<Hit<G>>): (out: seq<R>)
    ensures |out| == |ms|
    ensures forall k :: 0 <= k < |ms| ==> out[k] == f(ms[k])
  {
    if ms == [] then [] else [f(ms[0])] + MapHits(f, ms[1..])
  }

  /**
   The loop itself, on a fresh matcher: `lastIndex` starts at 0, each
   successful `exec` hands its match to the callback `f` and moves `lastIndex`
   to the end of the match, and the first failing `exec` ends the loop.
   */
  method ExecEach<G, R>(at: nat -> Option<Hit<G>>, n: nat, f: Hit<G> -> R) returns (out: seq<R>)
    requires Anchored(at, n)
    ensures out == MapHits(f, ScanFrom(at, n, 0))
  {
    var lastIndex: nat := 0;
    out := [];
    while true
      invariant out + MapHits(f, ScanFrom(at, n, lastIndex)) == MapHits(f, ScanFrom(at, n, 0))
      decreases n - lastIndex
    {
      var found := FindFrom(at, n, lastIndex);
      if found.None? {
        break;
      }
      var m := found.value;
      var rest := ScanFrom(at, n, m.end);
      assert ScanFrom(at, n, lastIndex) == [m] + rest;
      assert ([m] + rest)[1..] == rest;
      out := out + [f(m)];
      lastIndex := m.end;
    }
  }
}

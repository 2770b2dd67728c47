/**
 A JavaScript plain object used as a dictionary: string keys with values,
 in insertion order. Assigning to a key already present replaces its value
 where it stands; assigning to a new key appends it.
 */
module Dict {
  import opened Optional

  type Dict<V> = seq<(string, V)>

  /** `Object.keys`: the keys in order. */
  function Keys<V>(d: Dict<V>): (ks: seq<string>)
    ensures |ks| == |d|
    ensures forall i :: 0 <= i < |d| ==> ks[i] == d[i].0
    decreases |d|
  {
    if |d| == 0 then [] else [d[0].0] + Keys(d[1..])
  }

  /** No key is listed twice, as in every object JavaScript builds. */
  ghost predicate DistinctKeys<V>(d: Dict<V>) {
    forall i, j :: 0 <= i < j < |d| ==> d[i].0 != d[j].0
  }

  /** `d[k]`: the value stored under `k`, if any. */
  function Get<V>(d: Dict<V>, k: string): (r: Option<V>)
    ensures r.Some? <==> k in Keys(d)
    ensures r.Some? ==> exists i :: 0 <= i < |d| && d[i] == (k, r.value)
    ensures DistinctKeys(d) ==> forall i :: 0 <= i < |d| && d[i].0 == k ==> r == Some(d[i].1)
  {
    if |d| == 0 then None
    else if d[0].0 == k then Some(d[0].1)
    else Get(d[1..], k)
  }

  /** `d[k] = v`: an existing key keeps its place and takes the new value; a new key goes last. */
  function Put<V>(d: Dict<V>, k: string, v: V): (r: Dict<V>)
    ensures |r| == if k in Keys(d) then |d| else |d| + 1
    ensures forall i :: 0 <= i < |d| ==> r[i].0 == d[i].0 && (r[i].0 != k ==> r[i] == d[i])
    ensures k !in Keys(d) ==> r[|d|] == (k, v)
    decreases |d|
  {
    if |d| == 0 then [(k, v)]
    else if d[0].0 == k then [(k, v)] + d[1..]
    else [d[0]] + Put(d[1..], k, v)
  }

  /** After `d[k] = v`, the keys are those of `d`, plus `k` at the end if it is new. */
  lemma {:induction false} PutKeys<V>(d: Dict<V>, k: string, v: V)
    ensures Keys(Put(d, k, v)) == if k in Keys(d) then Keys(d) else Keys(d) + [k]
    decreases |d|
  {
    if |d| > 0 && d[0].0 != k {
      PutKeys(d[1..], k, v);
    }
  }

  /** After `d[k] = v`, reading `k` gives `v` and reading any other key gives what it gave before. */
  lemma {:induction false} PutGet<V>(d: Dict<V>, k: string, v: V, k': string)
    ensures Get(Put(d, k, v), k') == if k' == k then Some(v) else Get(d, k')
    decreases |d|
  {
    if |d| > 0 && d[0].0 != k {
      PutGet(d[1..], k, v, k');
    }
  }

  /** Assignment never lists a key twice. */
  lemma PutDistinct<V>(d: Dict<V>, k: string, v: V)
    requires DistinctKeys(d)
    ensures DistinctKeys(Put(d, k, v))
  {
    PutKeys(d, k, v);
    var r := Put(d, k, v);
    forall i, j | 0 <= i < j < |r| ensures r[i].0 != r[j].0 {
      assert Keys(r)[i] == r[i].0 && Keys(r)[j] == r[j].0;
    }
  }

  /** The assignments `d[k] = v` for each pair in turn; `_.fromPairs` is this applied to `{}`. */
  function PutAll<V>(d: Dict<V>, ps: seq<(string, V)>): Dict<V>
    decreases |ps|
  {
    if |ps| == 0 then d else PutAll(Put(d, ps[0].0, ps[0].1), ps[1..])
  }

  /** The keys of a concatenation are the concatenation of the keys. */
  lemma {:induction false} KeysAppend<V>(a: Dict<V>, b: Dict<V>)
    ensures Keys(a + b) == Keys(a) + Keys(b)
    decreases |a|
  {
    if |a| > 0 {
      assert (a + b)[1..] == a[1..] + b;
      KeysAppend(a[1..], b);
    } else {
      assert a + b == b;
    }
  }

  /** Position `i` holds the last pair with key `k`. */
  ghost predicate LastAt<V>(ps: seq<(string, V)>, k: string, i: int) {
    0 <= i < |ps| && ps[i].0 == k && forall j :: i < j < |ps| ==> ps[j].0 != k
  }

  /** The value the last pair with key `k` carries, if any pair has that key. */
  function LastWith<V>(ps: seq<(string, V)>, k: string): (r: Option<V>)
    ensures r.Some? <==> k in Keys(ps)
    ensures r.Some? ==> exists i :: LastAt(ps, k, i) && ps[i].1 == r.value
  {
    if |ps| == 0 then None
    else if ps[|ps| - 1].0 == k then
      assert LastAt(ps, k, |ps| - 1);
      Some(ps[|ps| - 1].1)
    else
      var init := ps[..|ps| - 1];
      var r := LastWith(init, k);
      assert Keys(ps) == Keys(init) + [ps[|ps| - 1].0];
      assert forall i :: LastAt(init, k, i) ==> LastAt(ps, k, i) && init[i] == ps[i];
      r
  }

  /** Assigning two runs of pairs is assigning their concatenation. */
  lemma {:induction false} PutAllAppend<V>(d: Dict<V>, a: seq<(string, V)>, b: seq<(string, V)>)
    ensures PutAll(d, a + b) == PutAll(PutAll(d, a), b)
    decreases |a|
  {
    if |a| > 0 {
      assert (a + b)[1..] == a[1..] + b;
      PutAllAppend(Put(d, a[0].0, a[0].1), a[1..], b);
    } else {
      assert a + b == b;
    }
  }

  /** Last write wins: after the assignments, a key holds the last value assigned to it, or its old value if none was. */
  lemma {:induction false} PutAllGet<V>(d: Dict<V>, ps: seq<(string, V)>, k: string)
    ensures Get(PutAll(d, ps), k) == if k in Keys(ps) then LastWith(ps, k) else Get(d, k)
    decreases |ps|
  {
    if |ps| > 0 {
      var n := |ps| - 1;
      var init := ps[..n];
      assert ps == init + [ps[n]];
      PutAllAppend(d, init, [ps[n]]);
      PutAllGet(d, init, k);
      KeysAppend(init, [ps[n]]);
      assert PutAll(PutAll(d, init), [ps[n]]) == Put(PutAll(d, init), ps[n].0, ps[n].1);
      PutGet(PutAll(d, init), ps[n].0, ps[n].1, k);
    }
  }

  /** A key is present after the assignments exactly when it was present before or some assignment names it. */
  lemma {:induction false} PutAllKeys<V>(d: Dict<V>, ps: seq<(string, V)>, k: string)
    ensures k in Keys(PutAll(d, ps)) <==> k in Keys(d) || k in Keys(ps)
  {
    PutAllGet(d, ps, k);
  }

  /** Assigning pairs whose keys are all new, and distinct, appends them in order. */
  lemma {:induction false} PutAllFresh<V>(d: Dict<V>, ps: seq<(string, V)>)
    requires DistinctKeys(d + ps)
    ensures PutAll(d, ps) == d + ps
    decreases |ps|
  {
    if |ps| > 0 {
      var k := ps[0].0;
      assert (d + ps)[|d|] == ps[0];
      assert k !in Keys(d) by {
        forall i | 0 <= i < |d| ensures d[i].0 != k {
          assert (d + ps)[i] == d[i];
        }
      }
      assert Put(d, k, ps[0].1) == d + [ps[0]] by {
        PutFresh(d, k, ps[0].1);
      }
      assert d + [ps[0]] + ps[1..] == d + ps;
      PutAllFresh(d + [ps[0]], ps[1..]);
    }
  }

  /** Assigning a key not yet present appends it. */
  lemma {:induction false} PutFresh<V>(d: Dict<V>, k: string, v: V)
    requires k !in Keys(d)
    ensures Put(d, k, v) == d + [(k, v)]
    decreases |d|
  {
    if |d| > 0 {
      assert Keys(d)[0] == d[0].0;
      assert k !in Keys(d[1..]) by {
        forall i | 0 <= i < |d| - 1 ensures Keys(d[1..])[i] != k {
          assert Keys(d[1..])[i] == d[i + 1].0 == Keys(d)[i + 1];
        }
      }
      PutFresh(d[1..], k, v);
      assert Put(d, k, v) == [d[0]] + (d[1..] + [(k, v)]);
      assert [d[0]] + (d[1..] + [(k, v)]) == d + [(k, v)];
    }
  }

  /** Assignments never list a key twice. */
  lemma {:induction false} PutAllDistinct<V>(d: Dict<V>, ps: seq<(string, V)>)
    requires DistinctKeys(d)
    ensures DistinctKeys(PutAll(d, ps))
    decreases |ps|
  {
    if |ps| > 0 {
      PutDistinct(d, ps[0].0, ps[0].1);
      PutAllDistinct(Put(d, ps[0].0, ps[0].1), ps[1..]);
    }
  }
}
